/**
 * Properties that hold "at every depth": in the top-level sequence and,
 * recursively, in every loop body.  The peephole passes recurse into loop
 * bodies, so this is the shape of nearly every statement about them.
 */
module Nested {
  import opened Ir

  /** `ok` holds of every instruction, loop bodies included. */
  predicate Everywhere(p: seq<Instr>, ok: Instr -> bool)
    decreases p
  {
    forall k | 0 <= k < |p| :: ok(p[k]) && (p[k].Loop? ==> Everywhere(p[k].body, ok))
  }

  /** No adjacent pair of `p` satisfies `bad`. */
  predicate NoAdjacent(p: seq<Instr>, bad: (Instr, Instr) -> bool) {
    forall k | 0 <= k < |p| - 1 :: !bad(p[k], p[k + 1])
  }

  /** No adjacent pair satisfies `bad`, neither at the top level nor in any loop body. */
  predicate NowhereAdjacent(p: seq<Instr>, bad: (Instr, Instr) -> bool)
    decreases p
  {
    NoAdjacent(p, bad) && forall k | 0 <= k < |p| && p[k].Loop? :: NowhereAdjacent(p[k].body, bad)
  }

  /** Every top-level instruction that `moved` picks out is immediately followed by one that `next` accepts. */
  predicate AlwaysFollowedBy(p: seq<Instr>, moved: Instr -> bool, next: Instr -> bool) {
    forall k | 0 <= k < |p| && moved(p[k]) :: k + 1 < |p| && next(p[k + 1])
  }

  /** `Increment` and `Set` act on the current cell: the only shape the offset-free revisions have. */
  predicate AtCurrentCell(i: Instr) {
    (i.Increment? || i.Set?) ==> i.offset == 0
  }

  /** A program of the offset-free revisions: no non-zero offset at any depth. */
  predicate OffsetFree(p: seq<Instr>) {
    Everywhere(p, AtCurrentCell)
  }

  lemma NoAdjacentTail(p: seq<Instr>, bad: (Instr, Instr) -> bool)
    requires p != [] && NoAdjacent(p, bad)
    ensures NoAdjacent(p[1..], bad)
  {
    var rest := p[1..];
    assert forall k | 0 <= k < |rest| :: rest[k] == p[k + 1];
  }
}
