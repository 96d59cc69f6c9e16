/**
 * `combine_increments` and `combine_ptr_increments`, as both the fixpoint
 * optimiser and the older single-pass optimiser define them: a `coalesce`
 * folds each run of increments to the same place into one node carrying the
 * sum, a `filter` drops the nodes whose sum is zero, and a `map` treats every
 * loop body the same way.  The two passes differ only in which instruction
 * they fold, and the two revisions only in how cell amounts add, so one
 * parameterised pass models all four.
 */
module Increments {
  import opened Wrappers
  import opened Ir
  import opened Adaptors
  import opened Nested

  /** How a revision adds cell amounts: `Wrapping<i8>` in the fixpoint optimiser, plain integers before it. */
  datatype Arith = Wrapping | Unbounded

  /** What a pass folds: cell increments (added with some arithmetic) or pointer increments (plain integers). */
  datatype Counter = Cells(arith: Arith) | Pointer

  /** Whether `i` is the kind of node the pass folds. */
  predicate Counts(c: Counter, i: Instr) {
    if c.Cells? then i.Increment? else i.PointerIncrement?
  }

  /** Where an increment acts: the cell offset; pointer increments all act on the pointer. */
  function Slot(i: Instr): int {
    if i.Increment? then i.offset else 0
  }

  function Amount(i: Instr): int {
    if i.Increment? || i.PointerIncrement? then i.amount else 0
  }

  /** The revision's representation of a sum. */
  function Norm(c: Counter, x: int): int {
    if c == Cells(Wrapping) then Wrap(x) else x
  }

  /** An amount the revision can hold: any integer, or an `i8` for wrapping cells. */
  predicate Normal(c: Counter, i: Instr) {
    Counts(c, i) ==> Norm(c, Amount(i)) == Amount(i)
  }

  /** The node of kind `c` with the given amount and place. */
  function Rebuild(c: Counter, amount: int, slot: int): (r: Instr)
    ensures Counts(c, r) && Amount(r) == amount
    ensures c.Cells? ==> Slot(r) == slot
  {
    if c.Cells? then Increment(amount, slot) else PointerIncrement(amount)
  }

  lemma RebuildSame(c: Counter, i: Instr)
    requires Counts(c, i)
    ensures Rebuild(c, Amount(i), Slot(i)) == i
  {
  }

  /** The first `coalesce`'s rule: two adjacent increments of the same place become one carrying their sum. */
  function MergeRun(c: Counter, a: Instr, b: Instr): Option<Instr> {
    if Counts(c, a) && Counts(c, b) && Slot(a) == Slot(b)
    then Some(Rebuild(c, Norm(c, Amount(b) + Amount(a)), Slot(a)))
    else None
  }

  function MergeRuns(c: Counter): Merge {
    (a: Instr, b: Instr) => MergeRun(c, a, b)
  }

  predicate IsZero(c: Counter, i: Instr) {
    Counts(c, i) && Amount(i) == 0
  }

  /** The `filter`'s test: drop increments of zero. */
  function NonZero(c: Counter): Instr -> bool {
    i => !IsZero(c, i)
  }

  /** Two adjacent nodes of the folded kind. */
  function BothCount(c: Counter): (Instr, Instr) -> bool {
    (a: Instr, b: Instr) => Counts(c, a) && Counts(c, b)
  }

  lemma MergeRunsShape(c: Counter)
    ensures KeepsLoops(MergeRuns(c))
    ensures LeftStable(MergeRuns(c))
  {
    var merge := MergeRuns(c);
    forall a, b | merge(a, b).Some?
      ensures Counts(c, merge(a, b).value) && Slot(merge(a, b).value) == Slot(a) && Slot(a) == Slot(b)
    {
      assert merge(a, b) == MergeRun(c, a, b);
    }
  }

  /** The top level of one pass: the `coalesce` followed by the `filter`. */
  function FoldRuns(p: seq<Instr>, c: Counter): (q: seq<Instr>)
    ensures forall k | 0 <= k < |q| && q[k].Loop? :: q[k] in p
  {
    MergeRunsShape(c);
    CoalesceKeepsLoops(p, MergeRuns(c));
    var merged := Coalesce(p, MergeRuns(c));
    assert forall x | x in merged && x.Loop? :: x in p;
    Filter(merged, NonZero(c))
  }

  /** The pass itself: fold the top level, then the body of every loop that remains. */
  function CombineCounts(p: seq<Instr>, c: Counter): (r: seq<Instr>)
    decreases p
  {
    var q := FoldRuns(p, c);
    seq(|q|, k requires 0 <= k < |q| => if q[k].Loop? then Loop(CombineCounts(q[k].body, c)) else q[k])
  }

  /** `combine_increments`. */
  function CombineIncrements(p: seq<Instr>, arith: Arith): seq<Instr> {
    CombineCounts(p, Cells(arith))
  }

  /** `combine_ptr_increments`. */
  function CombinePtrIncrements(p: seq<Instr>): seq<Instr> {
    CombineCounts(p, Pointer)
  }

  /** No increment of zero survives, at any depth. */
  lemma {:induction false} CombineLeavesNoZero(p: seq<Instr>, c: Counter)
    ensures Everywhere(CombineCounts(p, c), NonZero(c))
    decreases p
  {
    var q := FoldRuns(p, c);
    var r := CombineCounts(p, c);
    forall k | 0 <= k < |q| && q[k].Loop?
      ensures Everywhere(CombineCounts(q[k].body, c), NonZero(c))
    {
      CombineLeavesNoZero(q[k].body, c);
    }
    assert forall k | 0 <= k < |r| :: q[k] in q;
  }

  /** Dropping zero increments never brings two increments together that were apart. */
  lemma {:induction false} FilterKeepsApart(q: seq<Instr>, c: Counter)
    requires NoAdjacent(q, BothCount(c))
    ensures NoAdjacent(Filter(q, NonZero(c)), BothCount(c))
    decreases |q|
  {
    if q != [] {
      var tail := Filter(q[1..], NonZero(c));
      var rest := q[1..];
      assert forall k | 0 <= k < |rest| :: rest[k] == q[k + 1];
      FilterKeepsApart(rest, c);
      if NonZero(c)(q[0]) && tail != [] && Counts(c, q[0]) {
        assert q[1..] == [q[1]] + q[2..];
        assert !Counts(c, q[1]);
        assert tail[0] == q[1];
      }
    }
  }

  /** The top-level part of `CombineLeavesNoRun`. */
  lemma FoldRunsLeavesNoRun(p: seq<Instr>, c: Counter)
    requires forall k | 0 <= k < |p| :: Counts(c, p[k]) ==> Slot(p[k]) == 0
    ensures NoAdjacent(FoldRuns(p, c), BothCount(c))
  {
    var merge := MergeRuns(c);
    MergeRunsShape(c);
    var merged := Coalesce(p, merge);
    CoalesceNoMergeablePair(p, merge);
    var ok := (i: Instr) => Counts(c, i) ==> Slot(i) == 0;
    forall a, b | ok(a) && ok(b) && merge(a, b).Some?
      ensures ok(merge(a, b).value)
    {
      assert merge(a, b) == MergeRun(c, a, b);
    }
    CoalescePreserves(p, merge, ok);
    forall k | 0 <= k < |merged| - 1
      ensures !BothCount(c)(merged[k], merged[k + 1])
    {
      assert merge(merged[k], merged[k + 1]) == MergeRun(c, merged[k], merged[k + 1]);
      assert ok(merged[k]) && ok(merged[k + 1]);
    }
    FilterKeepsApart(merged, c);
  }

  /**
   * In the offset-free revisions (and always for pointer increments) no two
   * nodes of the folded kind stay adjacent, at any depth.
   */
  lemma {:induction false} CombineLeavesNoRun(p: seq<Instr>, c: Counter)
    requires c.Pointer? || OffsetFree(p)
    ensures NowhereAdjacent(CombineCounts(p, c), BothCount(c))
    decreases p
  {
    var q := FoldRuns(p, c);
    var r := CombineCounts(p, c);
    FoldRunsLeavesNoRun(p, c);
    forall k | 0 <= k < |q| && q[k].Loop?
      ensures NowhereAdjacent(CombineCounts(q[k].body, c), BothCount(c))
    {
      if c.Cells? {
        var j :| 0 <= j < |p| && p[j] == q[k];
        assert OffsetFree(q[k].body);
      }
      CombineLeavesNoRun(q[k].body, c);
    }
    forall k | 0 <= k < |r| - 1
      ensures !BothCount(c)(r[k], r[k + 1])
    {
      assert !BothCount(c)(q[k], q[k + 1]);
    }
  }

  /** A program with no zero increment and no adjacent pair of the folded kind, at any depth, is left alone. */
  lemma {:induction false} CombineFixedPoint(p: seq<Instr>, c: Counter)
    requires Everywhere(p, NonZero(c))
    requires NowhereAdjacent(p, BothCount(c))
    ensures CombineCounts(p, c) == p
    decreases p
  {
    var merge := MergeRuns(c);
    forall k | 0 <= k < |p| - 1
      ensures merge(p[k], p[k + 1]).None?
    {
      assert merge(p[k], p[k + 1]) == MergeRun(c, p[k], p[k + 1]);
      assert !BothCount(c)(p[k], p[k + 1]);
    }
    CoalesceIdentity(p, merge);
    FilterAll(p, NonZero(c));
    var q := FoldRuns(p, c);
    assert q == p;
    forall k | 0 <= k < |p| && p[k].Loop?
      ensures CombineCounts(p[k].body, c) == p[k].body
    {
      CombineFixedPoint(p[k].body, c);
    }
  }

  /** Running the pass twice is running it once (offset-free cells, or pointer increments). */
  lemma CombineIdempotent(p: seq<Instr>, c: Counter)
    requires c.Pointer? || OffsetFree(p)
    ensures CombineCounts(CombineCounts(p, c), c) == CombineCounts(p, c)
  {
    CombineLeavesNoZero(p, c);
    CombineLeavesNoRun(p, c);
    CombineFixedPoint(CombineCounts(p, c), c);
  }

  /** How many nodes at the front of `p` are of the folded kind and act on `slot`. */
  function RunLength(p: seq<Instr>, c: Counter, slot: int): (n: nat)
    ensures n <= |p|
    decreases |p|
  {
    if p != [] && Counts(c, p[0]) && Slot(p[0]) == slot then 1 + RunLength(p[1..], c, slot) else 0
  }

  /** The plain integer sum of the amounts in `p`. */
  function AmountSum(p: seq<Instr>): int
    decreases |p|
  {
    if p == [] then 0 else Amount(p[0]) + AmountSum(p[1..])
  }

  /**
   * The reference meaning of the `coalesce` step: each maximal run of
   * increments to one place is replaced by a single node carrying the run's
   * sum, in the revision's arithmetic; every other node stays where it is.
   */
  function SumRuns(p: seq<Instr>, c: Counter): (r: seq<Instr>)
    decreases |p|
  {
    if p == [] then []
    else if Counts(c, p[0]) then
      var n := RunLength(p, c, Slot(p[0]));
      [Rebuild(c, Norm(c, AmountSum(p[..n])), Slot(p[0]))] + SumRuns(p[n..], c)
    else [p[0]] + SumRuns(p[1..], c)
  }

  /** `SumRuns` of a sequence that starts with a folded node `h`, split after that node. */
  lemma SumRunsCons(h: Instr, t: seq<Instr>, c: Counter, m: nat)
    requires Counts(c, h)
    requires m == RunLength(t, c, Slot(h))
    ensures SumRuns([h] + t, c) == [Rebuild(c, Norm(c, Amount(h) + AmountSum(t[..m])), Slot(h))] + SumRuns(t[m..], c)
  {
    var x := [h] + t;
    assert x[0] == h && x[1..] == t;
    var n := RunLength(x, c, Slot(h));
    assert n == 1 + m;
    var run := x[..n];
    assert run[0] == h && run[1..] == t[..m];
    assert AmountSum(run) == Amount(h) + AmountSum(t[..m]);
    assert x[n..] == t[m..];
    assert SumRuns(x, c) == [Rebuild(c, Norm(c, AmountSum(run)), Slot(h))] + SumRuns(x[n..], c);
  }

  lemma NormOfSum(c: Counter, x: int, y: int)
    ensures Norm(c, Norm(c, x) + y) == Norm(c, x + y)
  {
    if c == Cells(Wrapping) {
      WrapOfSum(x, y);
    }
  }

  /** What one merge contributes: the merged node carries the pair's sum at the pending node's place. */
  lemma MergedNode(c: Counter, pending: Instr, next: Instr, later: int)
    requires MergeRun(c, pending, next).Some?
    ensures var m := MergeRun(c, pending, next).value;
      Counts(c, m) && Slot(m) == Slot(pending) && Slot(next) == Slot(pending) &&
      Norm(c, Amount(m) + later) == Norm(c, Amount(pending) + (Amount(next) + later))
  {
    var pair := Amount(next) + Amount(pending);
    NormOfSum(c, pair, later);
    assert pair + later == Amount(pending) + (Amount(next) + later);
  }

  /** Merging the pending node into the next one does not change which runs the reference sees. */
  lemma SumRunsMergeStep(pending: Instr, rest: seq<Instr>, c: Counter, m: Instr, n: nat)
    requires rest != [] && MergeRun(c, pending, rest[0]).Some?
    requires m == MergeRun(c, pending, rest[0]).value
    requires n == RunLength(rest[1..], c, Slot(pending))
    ensures SumRuns([m] + rest[1..], c) == SumRuns([pending] + rest, c)
  {
    var r1 := rest[1..];
    var later, tail := AmountSum(r1[..n]), r1[n..];
    var amount := Norm(c, Amount(pending) + (Amount(rest[0]) + later));
    var head := Rebuild(c, amount, Slot(pending));
    MergedNode(c, pending, rest[0], later);
    SumRunsMerged(pending, rest, c, m, n, amount);
    SumRunsLongerRun(pending, rest, c, n, amount, tail);
  }

  /** The reference after the merge: the merged node heads the same run, with the same sum. */
  lemma SumRunsMerged(pending: Instr, rest: seq<Instr>, c: Counter, m: Instr, n: nat, amount: int)
    requires rest != [] && Counts(c, m) && Slot(m) == Slot(pending)
    requires n == RunLength(rest[1..], c, Slot(pending))
    requires amount == Norm(c, Amount(m) + AmountSum(rest[1..][..n]))
    ensures SumRuns([m] + rest[1..], c) == [Rebuild(c, amount, Slot(pending))] + SumRuns(rest[1..][n..], c)
  {
    SumRunsCons(m, rest[1..], c, n);
  }

  /** The reference on `[pending] + rest` when the run continues for `n` more nodes after `rest[0]`. */
  lemma SumRunsLongerRun(pending: Instr, rest: seq<Instr>, c: Counter, n: nat, amount: int, tail: seq<Instr>)
    requires rest != [] && Counts(c, pending) && Counts(c, rest[0]) && Slot(rest[0]) == Slot(pending)
    requires n == RunLength(rest[1..], c, Slot(pending))
    requires amount == Norm(c, Amount(pending) + (Amount(rest[0]) + AmountSum(rest[1..][..n])))
    requires tail == rest[1..][n..]
    ensures SumRuns([pending] + rest, c) == [Rebuild(c, amount, Slot(pending))] + SumRuns(tail, c)
  {
    var x, slot := [pending] + rest, Slot(pending);
    assert x[0] == pending && x[1..] == rest;
    RunLengthStep(rest, c, slot);
    RunLengthStep(x, c, slot);
    AmountSumPrefix(rest, n);
    AmountSumPrefix(x, n + 1);
    var sum := AmountSum(x[..2 + n]);
    assert sum == Amount(pending) + (Amount(rest[0]) + AmountSum(rest[1..][..n]));
    assert x[2 + n..] == tail;
    SumRunsUnfold(x, c, 2 + n);
    assert SumRuns(x, c) == [Rebuild(c, Norm(c, sum), slot)] + SumRuns(tail, c);
  }

  /** The reference on a sequence that starts with a run of `n` folded nodes. */
  lemma SumRunsUnfold(p: seq<Instr>, c: Counter, n: nat)
    requires p != [] && Counts(c, p[0]) && n == RunLength(p, c, Slot(p[0]))
    ensures SumRuns(p, c) == [Rebuild(c, Norm(c, AmountSum(p[..n])), Slot(p[0]))] + SumRuns(p[n..], c)
  {
  }

  /** A run continues through a first node of the folded kind at the run's place. */
  lemma RunLengthStep(p: seq<Instr>, c: Counter, slot: int)
    requires p != [] && Counts(c, p[0]) && Slot(p[0]) == slot
    ensures RunLength(p, c, slot) == 1 + RunLength(p[1..], c, slot)
  {
  }

  /** The sum of a non-empty prefix is its first amount plus the sum of the rest of it. */
  lemma AmountSumPrefix(p: seq<Instr>, k: nat)
    requires k < |p|
    ensures AmountSum(p[..k + 1]) == Amount(p[0]) + AmountSum(p[1..][..k])
  {
    var run := p[..k + 1];
    assert run[0] == p[0] && run[1..] == p[1..][..k];
  }

  /** A pending node that does not merge with its successor is its own entry of the reference. */
  lemma SumRunsEmitStep(pending: Instr, rest: seq<Instr>, c: Counter)
    requires rest == [] || MergeRun(c, pending, rest[0]).None?
    requires Normal(c, pending)
    ensures SumRuns([pending] + rest, c) == [pending] + SumRuns(rest, c)
  {
    if Counts(c, pending) {
      assert RunLength(rest, c, Slot(pending)) == 0;
      SumRunsCons(pending, rest, c, 0);
      RebuildSame(c, pending);
      assert rest[..0] == [] && rest[0..] == rest;
    }
  }

  lemma {:induction false} CoalesceFromSumsRuns(pending: Instr, rest: seq<Instr>, c: Counter)
    requires Normal(c, pending)
    requires forall k | 0 <= k < |rest| :: Normal(c, rest[k])
    ensures CoalesceFrom(pending, rest, MergeRuns(c)) == SumRuns([pending] + rest, c)
    decreases |rest|
  {
    var merge := MergeRuns(c);
    if rest == [] {
      SumRunsEmitStep(pending, rest, c);
    } else {
      assert merge(pending, rest[0]) == MergeRun(c, pending, rest[0]);
      if MergeRun(c, pending, rest[0]).Some? {
        var m := MergeRun(c, pending, rest[0]).value;
        NormOfSum(c, Amount(rest[0]) + Amount(pending), 0);
        CoalesceFromSumsRuns(m, rest[1..], c);
        SumRunsMergeStep(pending, rest, c, m, RunLength(rest[1..], c, Slot(pending)));
      } else {
        CoalesceFromSumsRuns(rest[0], rest[1..], c);
        assert [rest[0]] + rest[1..] == rest;
        SumRunsEmitStep(pending, rest, c);
      }
    }
  }

  /** The `coalesce` step is exactly the run-summing reference, for amounts the revision can hold. */
  lemma CoalesceSumsRuns(p: seq<Instr>, c: Counter)
    requires forall k | 0 <= k < |p| :: Normal(c, p[k])
    ensures Coalesce(p, MergeRuns(c)) == SumRuns(p, c)
  {
    if p != [] {
      assert [p[0]] + p[1..] == p;
      CoalesceFromSumsRuns(p[0], p[1..], c);
    }
  }

  /** A program without loops is only folded at the top level. */
  lemma CombineFlat(p: seq<Instr>, c: Counter)
    requires forall k | 0 <= k < |p| :: !p[k].Loop?
    ensures CombineCounts(p, c) == FoldRuns(p, c)
  {
  }

  /** `++` becomes one increment of 2. */
  lemma CombineIncrementsPair()
    ensures CombineIncrements([Increment(1, 0), Increment(1, 0)], Wrapping) == [Increment(2, 0)]
  {
    var c := Cells(Wrapping);
    var merge := MergeRuns(c);
    assert merge(Increment(1, 0), Increment(1, 0)) == Some(Increment(2, 0));
    assert CoalesceFrom(Increment(1, 0), [Increment(1, 0)], merge) == [Increment(2, 0)];
    CombineFlat([Increment(1, 0), Increment(1, 0)], c);
  }

  /** `+-` vanishes: the run sums to zero and the zero is dropped. */
  lemma CombineIncrementsCancel()
    ensures CombineIncrements([Increment(1, 0), Increment(-1, 0)], Wrapping) == []
  {
    var c := Cells(Wrapping);
    var merge := MergeRuns(c);
    assert merge(Increment(1, 0), Increment(-1, 0)) == Some(Increment(0, 0));
    assert CoalesceFrom(Increment(1, 0), [Increment(-1, 0)], merge) == [Increment(0, 0)];
    assert Filter([Increment(0, 0)], NonZero(c)) == [];
    CombineFlat([Increment(1, 0), Increment(-1, 0)], c);
  }

  /** An increment of zero disappears whatever cell it targets. */
  lemma CombineRemovesZeroAnyOffset(offset: int)
    ensures CombineIncrements([Increment(0, offset)], Wrapping) == []
  {
    var c := Cells(Wrapping);
    assert Filter([Increment(0, offset)], NonZero(c)) == [];
    CombineFlat([Increment(0, offset)], c);
  }

  /** `[++]` folds inside the loop. */
  lemma CombineIncrementsNested()
    ensures CombineIncrements([Loop([Increment(1, 0), Increment(1, 0)])], Wrapping) == [Loop([Increment(2, 0)])]
  {
    var c := Cells(Wrapping);
    var l := Loop([Increment(1, 0), Increment(1, 0)]);
    assert Coalesce([l], MergeRuns(c)) == [l];
    assert Filter([l], NonZero(c)) == [l];
    CombineIncrementsPair();
  }

  /** A loop-free program whose neighbours never both have the folded kind, and with no zero amount, is left alone. */
  lemma CombineFlatFixedPoint(p: seq<Instr>, c: Counter)
    requires forall k | 0 <= k < |p| :: !p[k].Loop? && !IsZero(c, p[k])
    requires forall k | 0 <= k < |p| - 1 :: !(Counts(c, p[k]) && Counts(c, p[k + 1]))
    ensures CombineCounts(p, c) == p
  {
    CombineFixedPoint(p, c);
  }

  /** `+>+.` has nothing to fold, for either pass. */
  lemma CombineIncrementsUnrelated(p: seq<Instr>)
    requires p == [Increment(1, 0), PointerIncrement(1), Increment(1, 0), Write]
    ensures CombineIncrements(p, Wrapping) == p && CombinePtrIncrements(p) == p
  {
    assert p[0].Increment? && p[1].PointerIncrement? && p[2].Increment? && p[3].Write?;
    assert forall k | 0 <= k < |p| :: p[k].Write? || p[k].amount != 0;
    CombineFlatFixedPoint(p, Cells(Wrapping));
    CombineFlatFixedPoint(p, Pointer);
  }

  /** `>>` becomes one pointer increment of 2. */
  lemma CombinePtrIncrementsPair()
    ensures CombinePtrIncrements([PointerIncrement(1), PointerIncrement(1)]) == [PointerIncrement(2)]
  {
    var merge := MergeRuns(Pointer);
    assert merge(PointerIncrement(1), PointerIncrement(1)) == Some(PointerIncrement(2));
    assert CoalesceFrom(PointerIncrement(1), [PointerIncrement(1)], merge) == [PointerIncrement(2)];
    CombineFlat([PointerIncrement(1), PointerIncrement(1)], Pointer);
  }

  /** `><` vanishes. */
  lemma CombinePtrIncrementsCancel()
    ensures CombinePtrIncrements([PointerIncrement(1), PointerIncrement(-1)]) == []
  {
    var merge := MergeRuns(Pointer);
    assert merge(PointerIncrement(1), PointerIncrement(-1)) == Some(PointerIncrement(0));
    assert CoalesceFrom(PointerIncrement(1), [PointerIncrement(-1)], merge) == [PointerIncrement(0)];
    assert Filter([PointerIncrement(0)], NonZero(Pointer)) == [];
    CombineFlat([PointerIncrement(1), PointerIncrement(-1)], Pointer);
  }

  /** `[>>]` folds inside the loop. */
  lemma CombinePtrIncrementsNested()
    ensures CombinePtrIncrements([Loop([PointerIncrement(1), PointerIncrement(1)])]) == [Loop([PointerIncrement(2)])]
  {
    var l := Loop([PointerIncrement(1), PointerIncrement(1)]);
    assert Coalesce([l], MergeRuns(Pointer)) == [l];
    assert Filter([l], NonZero(Pointer)) == [l];
    CombinePtrIncrementsPair();
  }
}
