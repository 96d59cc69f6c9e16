/**
 * The passes that introduce, use and clean up knowledge that the current
 * cell is zero: `simplify_loops`, `annotate_known_zero`, `remove_dead_loops`
 * and `remove_redundant_sets` (the fixpoint optimiser's version and the
 * older one).
 */
module KnownZero {
  import opened Wrappers
  import opened Ir
  import opened Adaptors
  import opened Nested

  predicate IsSetZero(i: Instr) {
    i == SetZero
  }

  predicate NotSetZero(i: Instr) {
    i != SetZero
  }

  predicate IsLoop(i: Instr) {
    i.Loop?
  }

  predicate IsLoopOrMultiply(i: Instr) {
    i.Loop? || i.MultiplyMove?
  }

  // ---------------------------------------------------------------------
  // simplify_loops

  /** `[-]`: a loop whose body is exactly one decrement of the current cell. */
  predicate IsZeroingLoop(i: Instr) {
    i == Loop([Increment(-1, 0)])
  }

  predicate NotZeroingLoop(i: Instr) {
    !IsZeroingLoop(i)
  }

  /**
   * `simplify_loops`: the first `map` turns each zeroing loop into `Set(0)`,
   * the second recurses into the loops that remain.
   */
  function SimplifyLoops(p: seq<Instr>): (r: seq<Instr>)
    ensures |r| == |p|
    decreases p
  {
    seq(|p|, k requires 0 <= k < |p| =>
      if IsZeroingLoop(p[k]) then SetZero
      else if p[k].Loop? then Loop(SimplifyLoops(p[k].body))
      else p[k])
  }

  /** The inverse rewrite: every `Set(0)`, at any depth, back into `[-]`. */
  function RestoreZeroingLoops(p: seq<Instr>): (r: seq<Instr>)
    ensures |r| == |p|
    decreases p
  {
    seq(|p|, k requires 0 <= k < |p| =>
      if IsSetZero(p[k]) then Loop([Increment(-1, 0)])
      else if p[k].Loop? then Loop(RestoreZeroingLoops(p[k].body))
      else p[k])
  }

  /** A loop whose simplified body is `[Increment(-1)]` was itself a zeroing loop. */
  lemma SimplifiedBodyNotDecrement(b: seq<Instr>)
    requires SimplifyLoops(b) == [Increment(-1, 0)]
    ensures b == [Increment(-1, 0)]
  {
    assert |b| == 1;
    assert SimplifyLoops(b)[0] == Increment(-1, 0);
  }

  /** No zeroing loop survives, at any depth. */
  lemma {:induction false} SimplifyLeavesNoZeroingLoop(p: seq<Instr>)
    ensures Everywhere(SimplifyLoops(p), NotZeroingLoop)
    decreases p
  {
    var r := SimplifyLoops(p);
    forall k | 0 <= k < |p| && !IsZeroingLoop(p[k]) && p[k].Loop?
      ensures NotZeroingLoop(r[k]) && Everywhere(r[k].body, NotZeroingLoop)
    {
      SimplifyLeavesNoZeroingLoop(p[k].body);
      if SimplifyLoops(p[k].body) == [Increment(-1, 0)] {
        SimplifiedBodyNotDecrement(p[k].body);
      }
    }
  }

  /** A program with no zeroing loop is left alone. */
  lemma {:induction false} SimplifyFixedPoint(p: seq<Instr>)
    requires Everywhere(p, NotZeroingLoop)
    ensures SimplifyLoops(p) == p
    decreases p
  {
    forall k | 0 <= k < |p| && p[k].Loop?
      ensures SimplifyLoops(p[k].body) == p[k].body
    {
      SimplifyFixedPoint(p[k].body);
    }
  }

  lemma SimplifyIdempotent(p: seq<Instr>)
    ensures SimplifyLoops(SimplifyLoops(p)) == SimplifyLoops(p)
  {
    SimplifyLeavesNoZeroingLoop(p);
    SimplifyFixedPoint(SimplifyLoops(p));
  }

  /** On programs without `Set(0)` (the parser's output), restoring undoes the simplification. */
  lemma {:induction false} RestoreUndoesSimplify(p: seq<Instr>)
    requires Everywhere(p, NotSetZero)
    ensures RestoreZeroingLoops(SimplifyLoops(p)) == p
    decreases p
  {
    forall k | 0 <= k < |p| && p[k].Loop? && !IsZeroingLoop(p[k])
      ensures RestoreZeroingLoops(SimplifyLoops(p[k].body)) == p[k].body
    {
      RestoreUndoesSimplify(p[k].body);
    }
  }

  /** A loop whose restored body is `[Increment(-1)]` already had that body. */
  lemma RestoredBodyNotDecrement(b: seq<Instr>)
    requires RestoreZeroingLoops(b) == [Increment(-1, 0)]
    ensures b == [Increment(-1, 0)]
  {
    assert |b| == 1;
    assert RestoreZeroingLoops(b)[0] == Increment(-1, 0);
  }

  /** On programs without zeroing loops, simplifying undoes the restoration. */
  lemma {:induction false} SimplifyUndoesRestore(p: seq<Instr>)
    requires Everywhere(p, NotZeroingLoop)
    ensures SimplifyLoops(RestoreZeroingLoops(p)) == p
    decreases p
  {
    var q := RestoreZeroingLoops(p);
    forall k | 0 <= k < |p| && p[k].Loop?
      ensures !IsZeroingLoop(q[k]) && SimplifyLoops(RestoreZeroingLoops(p[k].body)) == p[k].body
    {
      if RestoreZeroingLoops(p[k].body) == [Increment(-1, 0)] {
        RestoredBodyNotDecrement(p[k].body);
      }
      SimplifyUndoesRestore(p[k].body);
    }
  }

  /** `[-]` becomes `Set(0)`, `[[-]]` becomes `[Set(0)]`, and `[--]` is left alone. */
  lemma SimplifyLoopsExamples()
    ensures SimplifyLoops([Loop([Increment(-1, 0)])]) == [SetZero]
    ensures SimplifyLoops([Loop([Loop([Increment(-1, 0)])])]) == [Loop([SetZero])]
    ensures SimplifyLoops([Loop([Increment(-1, 0), Increment(-1, 0)])]) == [Loop([Increment(-1, 0), Increment(-1, 0)])]
  {
    assert SimplifyLoops([Increment(-1, 0), Increment(-1, 0)]) == [Increment(-1, 0), Increment(-1, 0)];
  }

  // ---------------------------------------------------------------------
  // annotate_known_zero

  /** `annotate_known_zero_inner`: a `Set(0)` after every loop, at every depth. */
  function AnnotateInner(p: seq<Instr>): (r: seq<Instr>)
    decreases p
  {
    if p == [] then []
    else (if p[0].Loop? then [Loop(AnnotateInner(p[0].body)), SetZero] else [p[0]]) + AnnotateInner(p[1..])
  }

  /** `annotate_known_zero`: cells start at zero, so the program starts with `Set(0)` too. */
  function AnnotateKnownZero(p: seq<Instr>): seq<Instr> {
    [SetZero] + AnnotateInner(p)
  }

  /** Every loop, at every depth, is immediately followed by `Set(0)`. */
  predicate LoopsThenZero(p: seq<Instr>)
    decreases p
  {
    AlwaysFollowedBy(p, IsLoop, IsSetZero) && forall k | 0 <= k < |p| && p[k].Loop? :: LoopsThenZero(p[k].body)
  }

  lemma {:induction false} AnnotateInnerMarksLoops(p: seq<Instr>)
    ensures LoopsThenZero(AnnotateInner(p))
    decreases p
  {
    if p != [] {
      var head := if p[0].Loop? then [Loop(AnnotateInner(p[0].body)), SetZero] else [p[0]];
      var tail := AnnotateInner(p[1..]);
      assert AnnotateInner(p) == head + tail;
      AnnotateInnerMarksLoops(p[1..]);
      if p[0].Loop? {
        AnnotateInnerMarksLoops(p[0].body);
        assert head[0].body == AnnotateInner(p[0].body);
      }
      assert LoopsThenZero(head);
      LoopsThenZeroConcat(head, tail);
    }
  }

  /** Two programs with every loop followed by `Set(0)`, the first not ending in a loop, concatenate to one. */
  lemma LoopsThenZeroConcat(head: seq<Instr>, tail: seq<Instr>)
    requires LoopsThenZero(head) && LoopsThenZero(tail)
    requires head == [] || !head[|head| - 1].Loop?
    ensures LoopsThenZero(head + tail)
  {
    var r := head + tail;
    forall k | 0 <= k < |r| && r[k].Loop?
      ensures k + 1 < |r| && IsSetZero(r[k + 1]) && LoopsThenZero(r[k].body)
    {
      if k >= |head| {
        assert r[k] == tail[k - |head|] && r[k + 1] == tail[k + 1 - |head|];
      } else {
        assert r[k] == head[k] && r[k + 1] == head[k + 1];
      }
    }
  }

  /** The annotated program starts with `Set(0)` and has `Set(0)` right after every loop, at every depth. */
  lemma AnnotateMarksLoops(p: seq<Instr>)
    ensures AnnotateKnownZero(p)[0] == SetZero
    ensures LoopsThenZero(AnnotateKnownZero(p))
  {
    var r := AnnotateKnownZero(p);
    AnnotateInnerMarksLoops(p);
    assert forall k | 1 <= k < |r| :: r[k] == AnnotateInner(p)[k - 1];
  }

  /** `+[]` and `[[]]`, annotated. */
  lemma AnnotateExamples()
    ensures AnnotateKnownZero([Increment(1, 0), Loop([])]) == [SetZero, Increment(1, 0), Loop([]), SetZero]
    ensures AnnotateKnownZero([Loop([Loop([])])]) == [SetZero, Loop([Loop([]), SetZero]), SetZero]
  {
    assert AnnotateInner([Loop([])]) == [Loop([]), SetZero];
  }

  // ---------------------------------------------------------------------
  // remove_redundant_sets (fixpoint optimiser)

  /** A `Set(0)` right after a loop or a multiply-move: the cell is already zero there. */
  function RedundantPair(a: Instr, b: Instr): bool {
    IsLoopOrMultiply(a) && IsSetZero(b)
  }

  /** `remove_redundant_sets_inner`'s top level: loops and multiply-moves swallow the `Set(0)`s after them. */
  function DropRedundantSets(p: seq<Instr>): (q: seq<Instr>)
    ensures forall k | 0 <= k < |q| && q[k].Loop? :: q[k] in p
  {
    AbsorbShape(IsLoopOrMultiply, IsSetZero);
    CoalesceKeepsLoops(p, Absorb(IsLoopOrMultiply, IsSetZero));
    Coalesce(p, Absorb(IsLoopOrMultiply, IsSetZero))
  }

  /** `remove_redundant_sets_inner`. */
  function RedundantSetsInner(p: seq<Instr>): (r: seq<Instr>)
    decreases p
  {
    var q := DropRedundantSets(p);
    seq(|q|, k requires 0 <= k < |q| => if q[k].Loop? then Loop(RedundantSetsInner(q[k].body)) else q[k])
  }

  /** `remove_redundant_sets`: the inner pass, then a leading `Set(0)` goes too. */
  function RemoveRedundantSets(p: seq<Instr>): seq<Instr> {
    var reduced := RedundantSetsInner(p);
    if reduced != [] && reduced[0] == SetZero then reduced[1..] else reduced
  }

  lemma {:induction false} RedundantSetsInnerLeavesNone(p: seq<Instr>)
    ensures NowhereAdjacent(RedundantSetsInner(p), RedundantPair)
    decreases p
  {
    var merge := Absorb(IsLoopOrMultiply, IsSetZero);
    var q := DropRedundantSets(p);
    var r := RedundantSetsInner(p);
    AbsorbShape(IsLoopOrMultiply, IsSetZero);
    CoalesceNoMergeablePair(p, merge);
    forall k | 0 <= k < |r| - 1
      ensures !RedundantPair(r[k], r[k + 1])
    {
      assert merge(q[k], q[k + 1]).None?;
    }
    forall k | 0 <= k < |q| && q[k].Loop?
      ensures NowhereAdjacent(RedundantSetsInner(q[k].body), RedundantPair)
    {
      RedundantSetsInnerLeavesNone(q[k].body);
    }
  }

  /** No `Set(0)` is left right after a loop or a multiply-move, at any depth. */
  lemma RemoveRedundantSetsLeavesNone(p: seq<Instr>)
    ensures NowhereAdjacent(RemoveRedundantSets(p), RedundantPair)
  {
    var reduced := RedundantSetsInner(p);
    RedundantSetsInnerLeavesNone(p);
    if reduced != [] && reduced[0] == SetZero {
      var r := reduced[1..];
      assert forall k | 0 <= k < |r| :: r[k] == reduced[k + 1];
    }
  }

  /** The loops of `p` with their bodies annotated, and nothing inserted at this level. */
  function AnnotateBodies(p: seq<Instr>): (r: seq<Instr>)
    ensures |r| == |p|
    decreases p
  {
    seq(|p|, k requires 0 <= k < |p| => if p[k].Loop? then Loop(AnnotateInner(p[k].body)) else p[k])
  }

  lemma AnnotateInnerCons(p: seq<Instr>)
    requires p != []
    ensures p[0].Loop? ==> AnnotateInner(p) == [Loop(AnnotateInner(p[0].body)), SetZero] + AnnotateInner(p[1..])
    ensures !p[0].Loop? ==> AnnotateInner(p) == [p[0]] + AnnotateInner(p[1..])
  {
  }

  lemma AnnotateBodiesCons(p: seq<Instr>)
    requires p != []
    ensures AnnotateBodies(p) == [AnnotateBodies(p)[0]] + AnnotateBodies(p[1..])
  {
  }

  /** After a loop, the inserted `Set(0)` is dropped and the filter stays active. */
  lemma DropAfterLoop(l: Instr, tail: seq<Instr>, active: bool, absorber: Instr -> bool)
    requires absorber(l) && !IsSetZero(l)
    ensures DropAbsorbed([l, SetZero] + tail, absorber, IsSetZero, active)
         == [l] + DropAbsorbed(tail, absorber, IsSetZero, true)
  {
    assert ([l, SetZero] + tail)[1..] == [SetZero] + tail;
    assert ([SetZero] + tail)[1..] == tail;
  }

  /** Any other instruction is kept, when the filter does not drop it. */
  lemma DropAfterOther(x: Instr, tail: seq<Instr>, active: bool, absorber: Instr -> bool)
    requires active ==> !IsSetZero(x)
    ensures DropAbsorbed([x] + tail, absorber, IsSetZero, active)
         == [x] + DropAbsorbed(tail, absorber, IsSetZero, absorber(x))
  {
    assert ([x] + tail)[1..] == tail;
  }

  /** Filtering the annotated top level drops exactly the inserted `Set(0)`s, when `p` has no redundant set of its own. */
  lemma {:induction false} DropInsertedSets(p: seq<Instr>, active: bool)
    requires NoAdjacent(p, RedundantPair)
    requires active ==> p == [] || !IsSetZero(p[0])
    ensures DropAbsorbed(AnnotateInner(p), IsLoopOrMultiply, IsSetZero, active) == AnnotateBodies(p)
    decreases |p|
  {
    if p != [] {
      var rest := p[1..];
      NoAdjacentTail(p, RedundantPair);
      assert |p| > 1 ==> !RedundantPair(p[0], p[1]);
      AnnotateInnerCons(p);
      AnnotateBodiesCons(p);
      if p[0].Loop? {
        DropAfterLoop(Loop(AnnotateInner(p[0].body)), AnnotateInner(rest), active, IsLoopOrMultiply);
        DropInsertedSets(rest, true);
      } else {
        DropAfterOther(p[0], AnnotateInner(rest), active, IsLoopOrMultiply);
        DropInsertedSets(rest, IsLoopOrMultiply(p[0]));
      }
    }
  }

  lemma {:induction false} InnerUndoesAnnotate(p: seq<Instr>)
    requires NowhereAdjacent(p, RedundantPair)
    ensures RedundantSetsInner(AnnotateInner(p)) == p
    decreases p
  {
    var a := AnnotateInner(p);
    CoalesceAbsorbs(a, IsLoopOrMultiply, IsSetZero);
    DropInsertedSets(p, false);
    assert DropRedundantSets(a) == AnnotateBodies(p);
    forall k | 0 <= k < |p| && p[k].Loop?
      ensures RedundantSetsInner(AnnotateInner(p[k].body)) == p[k].body
    {
      InnerUndoesAnnotate(p[k].body);
    }
  }

  /**
   * `remove_redundant_sets` undoes `annotate_known_zero` on every program
   * that has no redundant `Set(0)` of its own.
   */
  lemma RemoveUndoesAnnotate(p: seq<Instr>)
    requires NowhereAdjacent(p, RedundantPair)
    ensures RemoveRedundantSets(AnnotateKnownZero(p)) == p
  {
    var a := AnnotateInner(p);
    var x := [SetZero] + a;
    CoalesceAbsorbs(x, IsLoopOrMultiply, IsSetZero);
    CoalesceAbsorbs(a, IsLoopOrMultiply, IsSetZero);
    assert x[0] == SetZero && x[1..] == a;
    assert DropRedundantSets(x) == [SetZero] + DropRedundantSets(a);
    InnerUndoesAnnotate(p);
    assert RedundantSetsInner(x) == [SetZero] + RedundantSetsInner(a);
  }

  /** A `Set(0)` after a loop, or after a multiply-move, goes. */
  lemma RemoveRedundantSetsExamples(changes: map<int, int>)
    ensures RemoveRedundantSets([Loop([]), SetZero]) == [Loop([])]
    ensures RemoveRedundantSets([MultiplyMove(changes), SetZero]) == [MultiplyMove(changes)]
  {
    var l := [Loop([]), SetZero];
    var m := [MultiplyMove(changes), SetZero];
    CoalesceAbsorbs(l, IsLoopOrMultiply, IsSetZero);
    CoalesceAbsorbs(m, IsLoopOrMultiply, IsSetZero);
    assert l[1..] == [SetZero] && m[1..] == [SetZero];
    assert DropRedundantSets(l) == [Loop([])];
    assert DropRedundantSets(m) == [MultiplyMove(changes)];
    assert RedundantSetsInner([]) == [];
    assert RedundantSetsInner(l) == [Loop([])];
  }

  // ---------------------------------------------------------------------
  // remove_dead_loops

  predicate NotLoop(i: Instr) {
    !i.Loop?
  }

  /** A loop right after `Set(0)`: the current cell is zero, so the loop never runs. */
  function DeadLoopPair(a: Instr, b: Instr): bool {
    IsSetZero(a) && IsLoop(b)
  }

  /** `remove_dead_loops`' top level: `Set(0)` swallows the loops after it. */
  function DropDeadLoops(p: seq<Instr>): (q: seq<Instr>)
    ensures forall k | 0 <= k < |q| && q[k].Loop? :: q[k] in p
  {
    AbsorbShape(IsSetZero, IsLoop);
    CoalesceKeepsLoops(p, Absorb(IsSetZero, IsLoop));
    Coalesce(p, Absorb(IsSetZero, IsLoop))
  }

  /** `remove_dead_loops`. */
  function RemoveDeadLoops(p: seq<Instr>): (r: seq<Instr>)
    decreases p
  {
    var q := DropDeadLoops(p);
    seq(|q|, k requires 0 <= k < |q| => if q[k].Loop? then Loop(RemoveDeadLoops(q[k].body)) else q[k])
  }

  /** Only loops go: every other top-level instruction is kept, in order. */
  lemma DropDeadLoopsOnlyLoops(p: seq<Instr>)
    ensures Filter(DropDeadLoops(p), NotLoop) == Filter(p, NotLoop)
  {
    CoalesceAbsorbsOnly(p, IsSetZero, IsLoop, NotLoop);
  }

  /** No loop is left right after `Set(0)`, at any depth. */
  lemma {:induction false} RemoveDeadLoopsLeavesNone(p: seq<Instr>)
    ensures NowhereAdjacent(RemoveDeadLoops(p), DeadLoopPair)
    decreases p
  {
    var merge := Absorb(IsSetZero, IsLoop);
    var q := DropDeadLoops(p);
    var r := RemoveDeadLoops(p);
    AbsorbShape(IsSetZero, IsLoop);
    CoalesceNoMergeablePair(p, merge);
    forall k | 0 <= k < |r| - 1
      ensures !DeadLoopPair(r[k], r[k + 1])
    {
      assert merge(q[k], q[k + 1]).None?;
    }
    forall k | 0 <= k < |q| && q[k].Loop?
      ensures NowhereAdjacent(RemoveDeadLoops(q[k].body), DeadLoopPair)
    {
      RemoveDeadLoopsLeavesNone(q[k].body);
    }
  }

  /** A program with no dead loop is left alone. */
  lemma {:induction false} RemoveDeadLoopsFixedPoint(p: seq<Instr>)
    requires NowhereAdjacent(p, DeadLoopPair)
    ensures RemoveDeadLoops(p) == p
    decreases p
  {
    var merge := Absorb(IsSetZero, IsLoop);
    forall k | 0 <= k < |p| - 1
      ensures merge(p[k], p[k + 1]).None?
    {
      assert !DeadLoopPair(p[k], p[k + 1]);
    }
    CoalesceIdentity(p, merge);
    forall k | 0 <= k < |p| && p[k].Loop?
      ensures RemoveDeadLoops(p[k].body) == p[k].body
    {
      RemoveDeadLoopsFixedPoint(p[k].body);
    }
  }

  lemma RemoveDeadLoopsIdempotent(p: seq<Instr>)
    ensures RemoveDeadLoops(RemoveDeadLoops(p)) == RemoveDeadLoops(p)
  {
    RemoveDeadLoopsLeavesNone(p);
    RemoveDeadLoopsFixedPoint(RemoveDeadLoops(p));
  }

  /** `Set(0)` followed by two loops keeps only the `Set(0)`; the same inside a loop. */
  lemma RemoveDeadLoopsExamples()
    ensures RemoveDeadLoops([SetZero, Loop([]), Loop([])]) == [SetZero]
    ensures RemoveDeadLoops([Loop([SetZero, Loop([])])]) == [Loop([SetZero])]
  {
    var a := [SetZero, Loop([]), Loop([])];
    var b := [SetZero, Loop([])];
    CoalesceAbsorbs(a, IsSetZero, IsLoop);
    CoalesceAbsorbs(b, IsSetZero, IsLoop);
    assert a[1..] == [Loop([]), Loop([])] && a[1..][1..] == [Loop([])];
    assert b[1..] == [Loop([])];
    assert DropDeadLoops(a) == [SetZero];
    assert DropDeadLoops(b) == [SetZero];
    assert RemoveDeadLoops(b) == [SetZero];
    CoalesceAbsorbs([Loop(b)], IsSetZero, IsLoop);
    assert DropDeadLoops([Loop(b)]) == [Loop(b)];
  }

  // ---------------------------------------------------------------------
  // remove_redundant_sets (single-pass optimiser)

  /** A `Set(0)` right after a loop. */
  function LoopThenZero(a: Instr, b: Instr): bool {
    IsLoop(a) && IsSetZero(b)
  }

  /**
   * The single-pass optimiser's `remove_redundant_sets`: only a loop
   * swallows the `Set(0)` after it, and a leading `Set(0)` is kept.
   */
  function DropLoopSets(p: seq<Instr>): (q: seq<Instr>)
    ensures forall k | 0 <= k < |q| && q[k].Loop? :: q[k] in p
  {
    AbsorbShape(IsLoop, IsSetZero);
    CoalesceKeepsLoops(p, Absorb(IsLoop, IsSetZero));
    Coalesce(p, Absorb(IsLoop, IsSetZero))
  }

  function LegacyRemoveRedundantSets(p: seq<Instr>): (r: seq<Instr>)
    decreases p
  {
    var q := DropLoopSets(p);
    seq(|q|, k requires 0 <= k < |q| => if q[k].Loop? then Loop(LegacyRemoveRedundantSets(q[k].body)) else q[k])
  }

  /** The first instruction is never removed; in particular a leading `Set(0)` survives. */
  lemma LegacyKeepsFirst(p: seq<Instr>)
    requires p != [] && !p[0].Loop?
    ensures LegacyRemoveRedundantSets(p) != [] && LegacyRemoveRedundantSets(p)[0] == p[0]
  {
    CoalesceAbsorbs(p, IsLoop, IsSetZero);
  }

  /** No `Set(0)` is left right after a loop, at any depth. */
  lemma {:induction false} LegacyLeavesNone(p: seq<Instr>)
    ensures NowhereAdjacent(LegacyRemoveRedundantSets(p), LoopThenZero)
    decreases p
  {
    var merge := Absorb(IsLoop, IsSetZero);
    var q := DropLoopSets(p);
    var r := LegacyRemoveRedundantSets(p);
    AbsorbShape(IsLoop, IsSetZero);
    CoalesceNoMergeablePair(p, merge);
    forall k | 0 <= k < |r| - 1
      ensures !LoopThenZero(r[k], r[k + 1])
    {
      assert merge(q[k], q[k + 1]).None?;
    }
    forall k | 0 <= k < |q| && q[k].Loop?
      ensures NowhereAdjacent(LegacyRemoveRedundantSets(q[k].body), LoopThenZero)
    {
      LegacyLeavesNone(q[k].body);
    }
  }

  /**
   * At the top level the older pass is the one-bit filter: a `Set(0)` goes
   * exactly when the last instruction kept is a loop, and nothing but a
   * `Set(0)` ever goes.
   */
  lemma LegacyOnlyDropsSets(p: seq<Instr>)
    ensures DropLoopSets(p) == DropAbsorbed(p, IsLoop, IsSetZero, false)
    ensures Filter(DropLoopSets(p), NotSetZero) == Filter(p, NotSetZero)
  {
    CoalesceAbsorbs(p, IsLoop, IsSetZero);
    CoalesceAbsorbsOnly(p, IsLoop, IsSetZero, NotSetZero);
  }

  /** Filtering the annotated top level drops exactly the inserted `Set(0)`s, when `p` has no `Set(0)` after a loop of its own. */
  lemma {:induction false} LegacyDropInsertedSets(p: seq<Instr>, active: bool)
    requires NoAdjacent(p, LoopThenZero)
    requires active ==> p == [] || !IsSetZero(p[0])
    ensures DropAbsorbed(AnnotateInner(p), IsLoop, IsSetZero, active) == AnnotateBodies(p)
    decreases |p|
  {
    if p != [] {
      var rest := p[1..];
      NoAdjacentTail(p, LoopThenZero);
      assert |p| > 1 ==> !LoopThenZero(p[0], p[1]);
      AnnotateInnerCons(p);
      AnnotateBodiesCons(p);
      if p[0].Loop? {
        DropAfterLoop(Loop(AnnotateInner(p[0].body)), AnnotateInner(rest), active, IsLoop);
        LegacyDropInsertedSets(rest, true);
      } else {
        DropAfterOther(p[0], AnnotateInner(rest), active, IsLoop);
        LegacyDropInsertedSets(rest, IsLoop(p[0]));
      }
    }
  }

  /**
   * The older pass deletes nothing but the `Set(0)` after a loop, at any
   * depth: putting a `Set(0)` after every loop and running the pass gives
   * back every program that has no such `Set(0)` of its own.
   */
  lemma {:induction false} LegacyUndoesAnnotate(p: seq<Instr>)
    requires NowhereAdjacent(p, LoopThenZero)
    ensures LegacyRemoveRedundantSets(AnnotateInner(p)) == p
    decreases p
  {
    var a := AnnotateInner(p);
    CoalesceAbsorbs(a, IsLoop, IsSetZero);
    LegacyDropInsertedSets(p, false);
    assert DropLoopSets(a) == AnnotateBodies(p);
    forall k | 0 <= k < |p| && p[k].Loop?
      ensures LegacyRemoveRedundantSets(AnnotateInner(p[k].body)) == p[k].body
    {
      LegacyUndoesAnnotate(p[k].body);
    }
  }

  /** The in-file test: a `Set(0)` after an empty loop goes. */
  lemma LegacyRemoveRedundantSetsExample()
    ensures LegacyRemoveRedundantSets([Loop([]), SetZero]) == [Loop([])]
  {
    var l := [Loop([]), SetZero];
    CoalesceAbsorbs(l, IsLoop, IsSetZero);
    assert l[1..] == [SetZero];
    assert DropLoopSets(l) == [Loop([])];
    assert LegacyRemoveRedundantSets([]) == [];
  }
}
