/** Value types shared by the matcher, the walker and the planner. */
module Types {

  /** A value or nothing, as Rust's `Option`. */
  datatype Option<+T> = None | Some(value: T)

  /** A value or an error, as Rust's `Result`. */
  datatype Result<+T, +E> = Ok(value: T) | Err(error: E)

  /** A byte of a UTF-8 encoded string. */
  newtype byte = x: int | 0 <= x < 256

  /** An ASCII string as the bytes that encode it. */
  function AsciiBytes(s: string): (b: seq<byte>)
    requires forall k :: 0 <= k < |s| ==> s[k] as int < 128
    ensures |b| == |s|
    ensures forall k :: 0 <= k < |b| ==> b[k] as int == s[k] as int
  {
    seq(|s|, k requires 0 <= k < |s| => s[k] as int as byte)
  }

  /** One planned move: `src` is renamed to `dest`. The repository's `Action`
      and `Entry` records are both this pair; paths are strings. */
  datatype Action = Action(src: string, dest: string)

  /** No two moves (at different positions) share a destination. */
  predicate DistinctDests(actions: seq<Action>)
  {
    forall i, j :: 0 <= i < j < |actions| ==> actions[i].dest != actions[j].dest
  }

  /** No two moves (at different positions) share a source. */
  predicate DistinctSrcs(actions: seq<Action>)
  {
    forall i, j :: 0 <= i < j < |actions| ==> actions[i].src != actions[j].src
  }
}
