/**
 * The first parser of the Rust rewrite (rust_src/src/bfir.rs), whose IR had a
 * single instruction: every character of the source, command or not, becomes
 * one `Increment(1)`.
 */
module ToyParser {
  import opened Ir

  method Parse(source: string) returns (r: seq<Instr>)
    ensures |r| == |source|
    ensures forall k | 0 <= k < |r| :: r[k] == Increment(1, 0)
  {
    r := [];
    var i := 0;
    while i < |source|
      invariant i <= |source| && |r| == i
      invariant forall k | 0 <= k < |r| :: r[k] == Increment(1, 0)
    {
      r := r + [Increment(1, 0)];
      i := i + 1;
    }
  }
}
