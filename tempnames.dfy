/** `make_safeish_filename` of `src/plan.rs`: a name for the temporary file
    that breaks a circular chain of moves. The name is the original path with
    `.pmv` and four lower-case hexadecimal digits appended; the digits are
    probed from a random start until a name that does not exist is found. */
module TempNames {
  import opened Types

  /** Rust's `u16`: the type of the random start and of the suffix. */
  type u16 = x: int | 0 <= x < 65536

  /** The number of suffixes probed: the ranges `n..65535` and `0..n`. */
  const Probes: nat := 65535

  function HexDigit(d: int): (c: char)
    requires 0 <= d < 16
    ensures IsHexDigit(c)
  {
    if d < 10 then ('0' as int + d) as char else ('a' as int + d - 10) as char
  }

  predicate IsHexDigit(c: char)
  {
    '0' <= c <= '9' || 'a' <= c <= 'f'
  }

  function HexValue(c: char): (d: int)
    requires IsHexDigit(c)
    ensures 0 <= d < 16
  {
    if c <= '9' then c as int - '0' as int else c as int - 'a' as int + 10
  }

  /** The `04x` format of `v`: four lower-case hexadecimal digits, most
      significant first, zero padded. */
  function Hex4(v: u16): (h: string)
    ensures |h| == 4
    ensures forall k :: 0 <= k < 4 ==> IsHexDigit(h[k])
  {
    [HexDigit(v / 4096), HexDigit(v / 256 % 16), HexDigit(v / 16 % 16), HexDigit(v % 16)]
  }

  /** Reads four hexadecimal digits back. */
  function ParseHex4(h: string): int
    requires |h| == 4 && forall k :: 0 <= k < 4 ==> IsHexDigit(h[k])
  {
    4096 * HexValue(h[0]) + 256 * HexValue(h[1]) + 16 * HexValue(h[2]) + HexValue(h[3])
  }

  lemma HexDigitValue(d: int)
    requires 0 <= d < 16
    ensures HexValue(HexDigit(d)) == d
  {
  }

  /** The suffix can be read back, so different suffixes give different
      names. */
  lemma Hex4RoundTrip(v: u16)
    ensures ParseHex4(Hex4(v)) == v
  {
    var h := Hex4(v);
    HexDigitValue(v / 4096);
    HexDigitValue(v / 256 % 16);
    HexDigitValue(v / 16 % 16);
    HexDigitValue(v % 16);
    assert v == 4096 * (v / 4096) + 256 * (v / 256 % 16) + 16 * (v / 16 % 16) + v % 16 by {
      assert v / 256 == 16 * (v / 4096) + v / 256 % 16;
      assert v / 16 == 16 * (v / 256) + v / 16 % 16;
      assert v == 16 * (v / 16) + v % 16;
    }
  }

  /** The name tried for suffix `v`. */
  function Candidate(path: string, v: u16): string
  {
    path + ".pmv" + Hex4(v)
  }

  /** Two candidates are the same name only for the same path and the same
      suffix. */
  lemma CandidateInjective(path: string, v: u16, other: string, w: u16)
    requires Candidate(path, v) == Candidate(other, w)
    ensures path == other && v == w
  {
    var t := Candidate(path, v);
    assert |path| == |other|;
    assert path == t[..|path|] == other;
    assert Hex4(v) == t[|path| + 4..] == Hex4(w);
    Hex4RoundTrip(v);
    Hex4RoundTrip(w);
  }

  /** The suffix of the `k`-th probe from start `n`: first `n`, `n+1`, ...,
      `65534`, then `0`, ..., `n-1`. */
  function Probe(n: u16, k: nat): (v: u16)
    requires k < Probes
    ensures v < Probes
  {
    (n + k) % Probes
  }

  /** Which probe tries suffix `v`. */
  function ProbeIndex(n: u16, v: u16): (k: nat)
    requires v < Probes
    ensures k < Probes
  {
    (v - n) % Probes
  }

  /** The probes visit every suffix below `ffff`, each exactly once. */
  lemma ProbeBijective(n: u16, v: u16, k: nat)
    requires v < Probes && k < Probes
    ensures Probe(n, ProbeIndex(n, v)) == v
    ensures ProbeIndex(n, Probe(n, k)) == k
  {
  }

  lemma ProbeFirstRange(n: u16, i: int)
    requires n <= i < Probes
    ensures Probe(n, i - n) == i
  {
  }

  lemma ProbeSecondRange(n: u16, i: int)
    requires 0 <= i < n && n <= Probes
    ensures Probe(n, Probes - n + i) == i
  {
  }

  /** The result of the probes from the `k`-th on: the first candidate that
      does not exist, if any. `taken` stands for `Path::exists`. */
  function FirstFree(path: string, n: u16, taken: string -> bool, k: nat): Option<string>
    requires k <= Probes
    decreases Probes - k
  {
    if k == Probes then None
    else if !taken(Candidate(path, Probe(n, k))) then Some(Candidate(path, Probe(n, k)))
    else FirstFree(path, n, taken, k + 1)
  }

  /** `make_safeish_filename`: the random start `n` is a parameter, the file
      system is the oracle `taken`. */
  method MakeSafeishFilename(path: string, n: u16, taken: string -> bool) returns (r: Option<string>)
    ensures r == FirstFree(path, n, taken, 0)
  {
    for i: int := n to Probes
      invariant FirstFree(path, n, taken, 0) == FirstFree(path, n, taken, i - n)
    {
      ProbeFirstRange(n, i);
      var t := Candidate(path, i);
      if !taken(t) {
        return Some(t);
      }
    }
    for i: int := 0 to n
      invariant FirstFree(path, n, taken, 0) == FirstFree(path, n, taken, Probes - n + i)
    {
      ProbeSecondRange(n, i);
      var t := Candidate(path, i);
      if !taken(t) {
        return Some(t);
      }
    }
    return None;
  }

  // ---------------------------------------------------------------------
  // Properties

  /** The name returned is the first free one in probe order: every earlier
      probe named an existing file. */
  lemma {:induction false} FirstFreeIsFirst(path: string, n: u16, taken: string -> bool, k: nat, j: nat)
    requires k <= j < Probes
    requires forall m :: k <= m < j ==> taken(Candidate(path, Probe(n, m)))
    requires !taken(Candidate(path, Probe(n, j)))
    ensures FirstFree(path, n, taken, k) == Some(Candidate(path, Probe(n, j)))
    decreases j - k
  {
    if k < j {
      FirstFreeIsFirst(path, n, taken, k + 1, j);
    }
  }

  /** What is returned does not exist and is a candidate other than `ffff`. */
  lemma {:induction false} FirstFreeFree(path: string, n: u16, taken: string -> bool, k: nat)
    requires k <= Probes
    ensures FirstFree(path, n, taken, k).Some? ==>
      var t := FirstFree(path, n, taken, k).value;
      !taken(t) && t != Candidate(path, 65535) &&
      exists m :: k <= m < Probes && t == Candidate(path, Probe(n, m))
    decreases Probes - k
  {
    var r := FirstFree(path, n, taken, k);
    if k < Probes {
      if !taken(Candidate(path, Probe(n, k))) {
        if r.value == Candidate(path, 65535) {
          CandidateInjective(path, Probe(n, k), path, 65535);
        }
      } else {
        FirstFreeFree(path, n, taken, k + 1);
      }
    }
  }

  /** No name is found exactly when every probe from the `k`-th on names an
      existing file. */
  lemma {:induction false} FirstFreeNone(path: string, n: u16, taken: string -> bool, k: nat)
    requires k <= Probes
    ensures FirstFree(path, n, taken, k).None? <==>
      forall m :: k <= m < Probes ==> taken(Candidate(path, Probe(n, m)))
    decreases Probes - k
  {
    if k < Probes {
      FirstFreeNone(path, n, taken, k + 1);
      var c := Candidate(path, Probe(n, k));
      if taken(c) {
        assert FirstFree(path, n, taken, k) == FirstFree(path, n, taken, k + 1);
        if FirstFree(path, n, taken, k).None? {
          forall m | k <= m < Probes
            ensures taken(Candidate(path, Probe(n, m)))
          {
            if m == k {
              assert taken(c);
            }
          }
        }
      } else {
        assert FirstFree(path, n, taken, k) == Some(c);
      }
    }
  }

  /** `make_safeish_filename` gives up only when all 65535 names with the
      suffixes `0000` to `fffe` exist, whatever the random start. */
  lemma GiveUpOnlyWhenAllTaken(path: string, n: u16, taken: string -> bool)
    ensures FirstFree(path, n, taken, 0).None? <==>
      forall v: u16 :: v < Probes ==> taken(Candidate(path, v))
  {
    FirstFreeNone(path, n, taken, 0);
    if FirstFree(path, n, taken, 0).None? {
      forall v: u16 | v < Probes
        ensures taken(Candidate(path, v))
      {
        ProbeBijective(n, v, 0);
      }
    }
  }
}
