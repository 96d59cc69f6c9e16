/**
 * Increment folding with a pending accumulator, as the two oldest revisions
 * write it: `coalesceIncrements` in src/optimisations.cpp and
 * `combine_increments` in rust_src/src/optimize.rs.  Both walk the program
 * once, holding back the last instruction; an increment that follows a held
 * increment is added to it, a zero sum empties the accumulator, and anything
 * else pushes the held instruction to the output.  Sums are plain integers
 * in both.  The C++ fold stays at the top level; the Rust one then recurses
 * into loop bodies.  Neither revision has offsets, so two increments fold
 * only when they act on the same cell.
 */
module Accumulate {
  import opened Wrappers
  import opened Ir
  import opened Adaptors
  import opened Nested
  import opened Increments

  /** Whether a held instruction and the next one fold together. */
  predicate Folds(last: Instr, next: Instr) {
    last.Increment? && next.Increment? && last.offset == next.offset
  }

  /**
   * What the walk still emits, given the held instruction and the
   * instructions not yet visited (the source's `Last`/`previous` and the rest
   * of its loop).
   */
  function Drain(held: Option<Instr>, rest: seq<Instr>): seq<Instr>
    decreases |rest|
  {
    if rest == [] then
      if held.Some? then [held.value] else []
    else if held.None? then
      Drain(Some(rest[0]), rest[1..])
    else if Folds(held.value, rest[0]) then
      var sum := rest[0].amount + held.value.amount;
      if sum == 0 then Drain(None, rest[1..])
      else Drain(Some(Increment(sum, held.value.offset)), rest[1..])
    else
      [held.value] + Drain(Some(rest[0]), rest[1..])
  }

  /**
   * `coalesceIncrements`, as the source's loop: `result` is what has been
   * pushed and `held` the pending instruction.
   */
  method CoalesceIncrements(p: seq<Instr>) returns (result: seq<Instr>)
    ensures result == Drain(None, p)
  {
    result := [];
    var held: Option<Instr> := None;
    var i := 0;
    while i < |p|
      invariant 0 <= i <= |p|
      invariant result + Drain(held, p[i..]) == Drain(None, p)
    {
      var current := p[i];
      assert p[i..] == [current] + p[i + 1..];
      if held.None? {
        held := Some(current);
      } else if Folds(held.value, current) {
        var sum := current.amount + held.value.amount;
        if sum == 0 {
          held := None;
        } else {
          held := Some(Increment(sum, held.value.offset));
        }
      } else {
        result := result + [held.value];
        held := Some(current);
      }
      i := i + 1;
    }
    if held.Some? {
      result := result + [held.value];
    }
  }

  /** rust_src's `combine_increments`: the same walk, then every loop body folded too. */
  function CombineHeld(p: seq<Instr>): (r: seq<Instr>)
    decreases p
  {
    var q := Drain(None, p);
    DrainKeepsLoops(None, p);
    seq(|q|, k requires 0 <= k < |q| => if q[k].Loop? then Loop(CombineHeld(q[k].body)) else q[k])
  }

  /** The walk never makes a loop: each loop it emits is one of the input's. */
  lemma {:induction false} DrainKeepsLoops(held: Option<Instr>, rest: seq<Instr>)
    ensures forall x | x in Drain(held, rest) && x.Loop? :: held == Some(x) || x in rest
    decreases |rest|
  {
    if rest != [] {
      if held.None? {
        DrainKeepsLoops(Some(rest[0]), rest[1..]);
      } else if Folds(held.value, rest[0]) {
        var sum := rest[0].amount + held.value.amount;
        DrainKeepsLoops(None, rest[1..]);
        DrainKeepsLoops(Some(Increment(sum, held.value.offset)), rest[1..]);
      } else {
        DrainKeepsLoops(Some(rest[0]), rest[1..]);
      }
    }
  }

  /** The C++ fold leaves loops as they are: their bodies are not folded. */
  lemma CoalesceLeavesBodies(p: seq<Instr>)
    ensures forall x | x in Drain(None, p) && x.Loop? :: x in p
  {
    DrainKeepsLoops(None, p);
  }

  // ---------------------------------------------------------------------
  // Agreement with the coalesce-and-filter passes

  /** An input with no increment of zero. */
  predicate NoZeroIncrement(p: seq<Instr>) {
    forall k | 0 <= k < |p| :: NonZero(Cells(Unbounded))(p[k])
  }

  /** A run whose sum reaches zero restarts from the next instruction, which is what `coalesce` does too. */
  lemma {:induction false} DrainAfterZero(offset: int, rest: seq<Instr>)
    requires NoZeroIncrement(rest)
    ensures Drain(None, rest) == Filter(CoalesceFrom(Increment(0, offset), rest, MergeRuns(Cells(Unbounded))), NonZero(Cells(Unbounded)))
    decreases |rest|, 0
  {
    var c := Cells(Unbounded);
    var merge := MergeRuns(c);
    var zero := Increment(0, offset);
    if rest == [] {
      assert Filter([zero], NonZero(c)) == [];
    } else {
      var tail := rest[1..];
      assert NoZeroIncrement(tail) by {
        assert forall k | 0 <= k < |tail| :: tail[k] == rest[k + 1];
      }
      assert merge(zero, rest[0]) == MergeRun(c, zero, rest[0]);
      if Folds(zero, rest[0]) {
        assert MergeRun(c, zero, rest[0]) == Some(rest[0]);
        assert CoalesceFrom(zero, rest, merge) == CoalesceFrom(rest[0], tail, merge);
        DrainMatchesFold(rest[0], tail);
      } else {
        assert CoalesceFrom(zero, rest, merge) == [zero] + CoalesceFrom(rest[0], tail, merge);
        var more := CoalesceFrom(rest[0], tail, merge);
        assert ([zero] + more)[1..] == more;
        DrainMatchesFold(rest[0], tail);
      }
    }
  }

  /**
   * With a non-zero instruction held and no increment of zero to come, the
   * walk emits exactly what `coalesce` followed by the zero filter emits.
   */
  lemma {:induction false} DrainMatchesFold(held: Instr, rest: seq<Instr>)
    requires NonZero(Cells(Unbounded))(held) && NoZeroIncrement(rest)
    ensures Drain(Some(held), rest) == Filter(CoalesceFrom(held, rest, MergeRuns(Cells(Unbounded))), NonZero(Cells(Unbounded)))
    decreases |rest|, 1
  {
    var c := Cells(Unbounded);
    var merge := MergeRuns(c);
    if rest == [] {
      assert Filter([held], NonZero(c)) == [held];
    } else {
      var tail := rest[1..];
      assert NoZeroIncrement(tail) by {
        assert forall k | 0 <= k < |tail| :: tail[k] == rest[k + 1];
      }
      assert merge(held, rest[0]) == MergeRun(c, held, rest[0]);
      if Folds(held, rest[0]) {
        var sum := rest[0].amount + held.amount;
        var folded := Increment(sum, held.offset);
        assert CoalesceFrom(held, rest, merge) == CoalesceFrom(folded, tail, merge);
        if sum == 0 {
          assert Drain(Some(held), rest) == Drain(None, tail);
          DrainAfterZero(held.offset, tail);
        } else {
          assert Drain(Some(held), rest) == Drain(Some(folded), tail);
          DrainMatchesFold(folded, tail);
        }
      } else {
        var more := CoalesceFrom(rest[0], tail, merge);
        assert CoalesceFrom(held, rest, merge) == [held] + more;
        assert Drain(Some(held), rest) == [held] + Drain(Some(rest[0]), tail);
        FilterKeepsFirst(held, more, NonZero(c));
        DrainMatchesFold(rest[0], tail);
      }
    }
  }

  /** Filtering keeps a first element that passes in front of the filtered rest. */
  lemma FilterKeepsFirst(x: Instr, more: seq<Instr>, keep: Instr -> bool)
    requires keep(x)
    ensures Filter([x] + more, keep) == [x] + Filter(more, keep)
  {
    assert ([x] + more)[1..] == more;
  }

  /**
   * On a program with no increment of zero, the accumulator walk is the top
   * level of the unbounded `combine_increments` of src/optimize.rs.
   */
  lemma CoalesceIncrementsMatchesFold(p: seq<Instr>)
    requires NoZeroIncrement(p)
    ensures Drain(None, p) == FoldRuns(p, Cells(Unbounded))
  {
    if p != [] {
      var tail := p[1..];
      assert NoZeroIncrement(tail) by {
        assert forall k | 0 <= k < |tail| :: tail[k] == p[k + 1];
      }
      DrainMatchesFold(p[0], tail);
      assert [p[0]] + tail == p;
    }
  }

  /** With no increment of zero anywhere, rust_src's pass is the unbounded `combine_increments`. */
  lemma {:induction false} CombineHeldMatchesCombine(p: seq<Instr>)
    requires Everywhere(p, NonZero(Cells(Unbounded)))
    ensures CombineHeld(p) == CombineIncrements(p, Unbounded)
    decreases p
  {
    var c := Cells(Unbounded);
    CoalesceIncrementsMatchesFold(p);
    var q := FoldRuns(p, c);
    forall k | 0 <= k < |q| && q[k].Loop?
      ensures CombineHeld(q[k].body) == CombineCounts(q[k].body, c)
    {
      assert q[k] in p;
      var j :| 0 <= j < |p| && p[j] == q[k];
      CombineHeldMatchesCombine(q[k].body);
    }
  }

  /**
   * The two differ on a lone increment of zero: the walk pushes whatever it
   * holds at the end, while the filter drops it.
   */
  lemma LoneZeroKept()
    ensures Drain(None, [Increment(0, 0)]) == [Increment(0, 0)]
    ensures CombineIncrements([Increment(0, 0)], Unbounded) == []
  {
    CombineRemovesZeroAnyOffset(0);
    assert Filter([Increment(0, 0)], NonZero(Cells(Unbounded))) == [];
    CombineFlat([Increment(0, 0)], Cells(Unbounded));
  }

  /** The tests of rust_src: `++` folds, `-+` vanishes, unrelated nodes stay, and loop bodies fold. */
  lemma CombineHeldExamples()
    ensures CombineHeld([Increment(1, 0), Increment(1, 0)]) == [Increment(2, 0)]
    ensures CombineHeld([Increment(-1, 0), Increment(1, 0)]) == []
    ensures CombineHeld([Increment(1, 0), PointerIncrement(1), Increment(1, 0), Write])
         == [Increment(1, 0), PointerIncrement(1), Increment(1, 0), Write]
    ensures CombineHeld([Loop([Increment(1, 0), Increment(1, 0)])]) == [Loop([Increment(2, 0)])]
  {
    assert Drain(None, [Increment(1, 0), Increment(1, 0)]) == [Increment(2, 0)];
    assert Drain(None, [Increment(-1, 0), Increment(1, 0)]) == [];
    var u := [Increment(1, 0), PointerIncrement(1), Increment(1, 0), Write];
    assert Drain(Some(Write), []) == [Write];
    assert Drain(Some(Increment(1, 0)), [Write]) == [Increment(1, 0), Write];
    assert Drain(Some(PointerIncrement(1)), u[2..]) == [PointerIncrement(1), Increment(1, 0), Write];
    assert Drain(None, u) == u;
    var l := Loop([Increment(1, 0), Increment(1, 0)]);
    assert Drain(None, [l]) == [l];
  }
}
