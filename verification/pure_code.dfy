/**
 * `remove_pure_code`, identical in both optimiser revisions: the trailing
 * instructions after the last side effect are dropped, since nothing can
 * observe them.  Loops count as side effects because they may not
 * terminate.
 */
module PureCode {
  import opened Ir

  /**
   * The source walks the reversed program, skipping until it sees a side
   * effect; that instruction and everything before it are kept.
   */
  function RemovePureCode(p: seq<Instr>): (r: seq<Instr>)
    ensures r <= p
    ensures r == [] || HasSideEffect(r[|r| - 1])
    ensures forall k | |r| <= k < |p| :: !HasSideEffect(p[k])
    decreases |p|
  {
    if p == [] then []
    else if HasSideEffect(p[|p| - 1]) then p
    else RemovePureCode(p[..|p| - 1])
  }

  /** The three properties above pick out one prefix: any prefix that has them is the result. */
  lemma RemovePureCodeUnique(p: seq<Instr>, q: seq<Instr>)
    requires q <= p
    requires q == [] || HasSideEffect(q[|q| - 1])
    requires forall k | |q| <= k < |p| :: !HasSideEffect(p[k])
    ensures RemovePureCode(p) == q
  {
  }

  /** A program with no Loop, Read or Write at the top level is removed entirely. */
  lemma RemovePureCodeOfPure(p: seq<Instr>)
    requires IsPure(p)
    ensures RemovePureCode(p) == []
  {
  }

  /** A program that already ends in a side effect is kept whole. */
  lemma RemovePureCodeKeepsEffects(p: seq<Instr>)
    requires p != [] && HasSideEffect(p[|p| - 1])
    ensures RemovePureCode(p) == p
  {
  }

  lemma RemovePureCodeIdempotent(p: seq<Instr>)
    ensures RemovePureCode(RemovePureCode(p)) == RemovePureCode(p)
  {
    var r := RemovePureCode(p);
    RemovePureCodeUnique(r, r);
  }

  /** Removing a suffix never adds nodes. */
  lemma RemovePureCodeShrinks(p: seq<Instr>)
    ensures CountInstrs(RemovePureCode(p)) <= CountInstrs(p)
  {
    var r := RemovePureCode(p);
    assert r + p[|r|..] == p;
    CountInstrsAppend(r, p[|r|..]);
  }

  /** `+.+`, after the earlier passes turned it into `Set(1) . +`: the trailing increment goes. */
  lemma RemovePureCodeExample()
    ensures RemovePureCode([Set(1, 0), Write, Increment(1, 0)]) == [Set(1, 0), Write]
  {
    RemovePureCodeUnique([Set(1, 0), Write, Increment(1, 0)], [Set(1, 0), Write]);
  }
}
