/**
 * The fixpoint optimiser's driver: `optimize_once` chains the passes in a
 * fixed order, and `optimize` repeats it until a round changes nothing.  The
 * source's loop has no bound; here it gets `fuel` rounds and answers `None`
 * when they run out.
 */
module Peephole {
  import opened Wrappers
  import opened Ir
  import opened Adaptors
  import opened Nested
  import opened Increments
  import opened KnownZero
  import opened Sets
  import opened PureCode
  import opened Multiply

  /** `optimize_once`. */
  function OptimizeOnce(p: seq<Instr>): seq<Instr> {
    var combined := CombinePtrIncrements(CombineIncrements(p, Wrapping));
    var annotated := AnnotateKnownZero(combined);
    var extracted := ExtractMultiply(annotated);
    var simplified := RemoveDeadLoops(CombineSetAndIncrements(SimplifyLoops(extracted)));
    RemovePureCode(CombineBeforeRead(RemoveRedundantSets(simplified)))
  }

  /**
   * `optimize`'s loop over any round `step`, with `prev` and `result` as in
   * the source and at most `fuel` more rounds.  Keeping the round a
   * parameter keeps its definition out of the proofs about the loop.
   */
  function FixFrom(step: seq<Instr> -> seq<Instr>, prev: seq<Instr>, result: seq<Instr>, fuel: nat): (r: Option<seq<Instr>>)
    requires result == step(prev)
    ensures r.Some? ==> step(r.value) == r.value
    decreases fuel
  {
    if prev == result then Some(result)
    else if fuel == 0 then None
    else FixFrom(step, result, step(result), fuel - 1)
  }

  /**
   * `optimize`: a result, when the rounds suffice, is a fixed point of
   * `optimize_once`, and a program that is already one comes back as it is.
   */
  function Optimize(p: seq<Instr>, fuel: nat): (r: Option<seq<Instr>>)
    ensures r.Some? ==> OptimizeOnce(r.value) == r.value
    ensures OptimizeOnce(p) == p ==> r == Some(p)
  {
    FixFrom(OptimizeOnce, p, OptimizeOnce(p), fuel)
  }

  /** The program after `n` rounds of `step`. */
  function Rounds(step: seq<Instr> -> seq<Instr>, p: seq<Instr>, n: nat): seq<Instr> {
    if n == 0 then p else step(Rounds(step, p, n - 1))
  }

  /** Round `n` is the one that changes nothing. */
  predicate Settled(step: seq<Instr> -> seq<Instr>, p: seq<Instr>, n: nat) {
    n >= 1 && Rounds(step, p, n) == Rounds(step, p, n - 1)
  }

  /**
   * From round `j` on, the loop stops at the first round `n` that changes
   * nothing, and returns the program after it, when the fuel reaches that
   * round; otherwise it gives up.
   */
  lemma {:induction false} FixFromRounds(step: seq<Instr> -> seq<Instr>, p: seq<Instr>, j: nat, fuel: nat, n: nat)
    requires j < n && Settled(step, p, n)
    requires forall m | j < m < n :: !Settled(step, p, m)
    ensures FixFrom(step, Rounds(step, p, j), Rounds(step, p, j + 1), fuel)
      == if n <= j + 1 + fuel then Some(Rounds(step, p, n)) else None
    decreases fuel
  {
    if j + 1 < n {
      assert !Settled(step, p, j + 1);
      if fuel > 0 {
        FixFromRounds(step, p, j + 1, fuel - 1, n);
      }
    }
  }

  /** When none of the rounds the fuel allows settles, the loop gives up. */
  lemma {:induction false} FixFromUnsettled(step: seq<Instr> -> seq<Instr>, p: seq<Instr>, j: nat, fuel: nat)
    requires forall m | j < m <= j + 1 + fuel :: !Settled(step, p, m)
    ensures FixFrom(step, Rounds(step, p, j), Rounds(step, p, j + 1), fuel) == None
    decreases fuel
  {
    assert !Settled(step, p, j + 1);
    if fuel > 0 {
      FixFromUnsettled(step, p, j + 1, fuel - 1);
    }
  }

  /**
   * `optimize` returns the program after the first round of `optimize_once`
   * that changes nothing, as long as the fuel reaches that round, and `None`
   * when it does not.
   */
  lemma OptimizeRounds(p: seq<Instr>, fuel: nat, n: nat)
    requires Settled(OptimizeOnce, p, n)
    requires forall m | 0 < m < n :: !Settled(OptimizeOnce, p, m)
    ensures Optimize(p, fuel) == if n <= fuel + 1 then Some(Rounds(OptimizeOnce, p, n)) else None
  {
    FixFromRounds(OptimizeOnce, p, 0, fuel, n);
  }

  /** A fixed point of the round is returned at once, whatever the fuel. */
  lemma FixFromFixedPoint(step: seq<Instr> -> seq<Instr>, q: seq<Instr>, fuel: nat)
    requires step(q) == q
    ensures FixFrom(step, q, step(q), fuel) == Some(q)
  {
  }

  lemma {:induction false} FixFromMoreFuel(step: seq<Instr> -> seq<Instr>, prev: seq<Instr>, result: seq<Instr>, fuel: nat, more: nat)
    requires result == step(prev)
    requires FixFrom(step, prev, result, fuel).Some?
    ensures FixFrom(step, prev, result, fuel + more) == FixFrom(step, prev, result, fuel)
    decreases fuel
  {
    if prev != result {
      FixFromMoreFuel(step, result, step(result), fuel - 1, more);
    }
  }

  /** Optimising an optimised program returns it at once, whatever the fuel. */
  lemma OptimizeIdempotent(p: seq<Instr>, fuel: nat, again: nat)
    requires Optimize(p, fuel).Some?
    ensures Optimize(Optimize(p, fuel).value, again) == Optimize(p, fuel)
  {
    FixFromFixedPoint(OptimizeOnce, Optimize(p, fuel).value, again);
  }

  /** Once the rounds suffice, more rounds change nothing: the fuel only bounds the search. */
  lemma OptimizeMoreFuel(p: seq<Instr>, fuel: nat, more: nat)
    requires Optimize(p, fuel).Some?
    ensures Optimize(p, fuel + more) == Optimize(p, fuel)
  {
    FixFromMoreFuel(OptimizeOnce, p, OptimizeOnce(p), fuel, more);
  }

  // ---------------------------------------------------------------------
  // Pure programs

  predicate NoEffect(i: Instr) {
    !HasSideEffect(i)
  }

  lemma CombineCountsPure(p: seq<Instr>, c: Counter)
    requires IsPure(p)
    ensures IsPure(CombineCounts(p, c))
  {
    var merge := MergeRuns(c);
    forall a, b | NoEffect(a) && NoEffect(b) && merge(a, b).Some?
      ensures NoEffect(merge(a, b).value)
    {
      assert merge(a, b) == MergeRun(c, a, b);
    }
    CoalescePreserves(p, merge, NoEffect);
    var q := FoldRuns(p, c);
    assert forall k | 0 <= k < |q| :: q[k] in q;
  }

  lemma AnnotateInnerPure(p: seq<Instr>)
    requires IsPure(p)
    ensures AnnotateInner(p) == p
    decreases |p|
  {
    if p != [] {
      var rest := p[1..];
      assert forall k | 0 <= k < |rest| :: rest[k] == p[k + 1];
      AnnotateInnerPure(rest);
      assert [p[0]] + rest == p;
    }
  }

  lemma SetWalksPure(p: seq<Instr>)
    requires IsPure(p)
    ensures IsPure(SetWalks(p))
  {
    SetRulesShape(Wrapping);
    var inc := IncSetRule();
    var sum := SetIncRule(Wrapping);
    var last := SetSetRule();
    forall a, b
      ensures inc(a, b) == MergeIncSet(a, b)
      ensures sum(a, b) == MergeSetInc(Wrapping, a, b)
      ensures last(a, b) == MergeSetSet(a, b)
    {
    }
    var one := Coalesce(p, inc);
    var two := Coalesce(one, sum);
    CoalescePreserves(p, inc, NoEffect);
    CoalescePreserves(one, sum, NoEffect);
    CoalescePreserves(two, last, NoEffect);
  }

  lemma AbsorbPure(p: seq<Instr>, absorber: Instr -> bool, absorbed: Instr -> bool)
    requires IsPure(p)
    ensures IsPure(Coalesce(p, Absorb(absorber, absorbed)))
  {
    CoalescePreserves(p, Absorb(absorber, absorbed), NoEffect);
  }

  lemma ReadWalkPure(p: seq<Instr>)
    requires IsPure(p)
    ensures ReadWalk(p) == p
  {
    var merge := ReadRule();
    forall k | 0 <= k < |p| - 1
      ensures merge(p[k], p[k + 1]).None?
    {
      assert merge(p[k], p[k + 1]) == MergeBeforeRead(p[k], p[k + 1]);
    }
    CoalesceIdentity(p, merge);
  }

  /** A round maps a program with no Loop, Read or Write at the top level to the empty program. */
  lemma OptimizeOnceOfPure(p: seq<Instr>)
    requires IsPure(p)
    ensures OptimizeOnce(p) == []
  {
    CountingPassesPure(p);
    var a := AnnotateKnownZero(CombinePtrIncrements(CombineIncrements(p, Wrapping)));
    LoopPassesPure(a);
    LastPassesOfPure(RemoveDeadLoops(CombineSetAndIncrements(SimplifyLoops(ExtractMultiply(a)))));
  }

  /** Counting and annotating keep a program without side effects so. */
  lemma CountingPassesPure(p: seq<Instr>)
    requires IsPure(p)
    ensures IsPure(AnnotateKnownZero(CombinePtrIncrements(CombineIncrements(p, Wrapping))))
  {
    var c1 := CombineIncrements(p, Wrapping);
    CombineCountsPure(p, Cells(Wrapping));
    var c2 := CombinePtrIncrements(c1);
    CombineCountsPure(c1, Pointer);
    AnnotateInnerPure(c2);
    assert AnnotateKnownZero(c2) == [SetZero] + AnnotateInner(c2);
  }

  /** The passes that rewrite loops and sets keep a program without side effects so. */
  lemma LoopPassesPure(a: seq<Instr>)
    requires IsPure(a)
    ensures IsPure(RemoveDeadLoops(CombineSetAndIncrements(SimplifyLoops(ExtractMultiply(a)))))
  {
    var s := SimplifyLoops(ExtractMultiply(a));
    SetWalksPure(s);
    AbsorbPure(CombineSetAndIncrements(s), IsSetZero, IsLoop);
  }

  /** The last three passes take a program without side effects to nothing. */
  lemma LastPassesOfPure(d: seq<Instr>)
    requires IsPure(d)
    ensures RemovePureCode(CombineBeforeRead(RemoveRedundantSets(d))) == []
  {
    AbsorbPure(d, IsLoopOrMultiply, IsSetZero);
    var rr := RemoveRedundantSets(d);
    assert IsPure(RedundantSetsInner(d));
    ReadWalkPure(rr);
    RemovePureCodeOfPure(CombineBeforeRead(rr));
  }

  /** The program without side effects optimises to nothing in one round. */
  lemma OptimizeOfPure(p: seq<Instr>, fuel: nat)
    requires IsPure(p) && fuel >= 1
    ensures Optimize(p, fuel) == Some([])
  {
    OptimizeOnceOfPure(p);
    OptimizeOnceOfPure([]);
    assert Optimize(p, fuel) == FixFrom(OptimizeOnce, [], OptimizeOnce([]), fuel - 1);
  }

  // ---------------------------------------------------------------------
  // The known-zero annotation is cleaned up

  /** Neither counting pass changes `.`. */
  lemma CombineKeepsWrite(arith: Arith)
    ensures CombinePtrIncrements(CombineIncrements([Write], arith)) == [Write]
  {
    CombineFixedPoint([Write], Cells(arith));
    CombineFixedPoint([Write], Pointer);
  }

  /** The annotation puts one `Set(0)` in front of `.`. */
  lemma AnnotateWrite()
    ensures AnnotateKnownZero([Write]) == [SetZero, Write]
  {
    assert AnnotateInner([Write]) == [Write];
  }

  /** `Set(0) .` has no loop to turn into a multiplication. */
  lemma ExtractKeepsSetWrite()
    ensures ExtractMultiply([SetZero, Write]) == [SetZero, Write]
  {
    ExtractLoopFree([SetZero, Write]);
  }

  /** `Set(0) .` has no zeroing loop. */
  lemma SimplifyKeepsSetWrite()
    ensures SimplifyLoops([SetZero, Write]) == [SetZero, Write]
  {
    SimplifyFixedPoint([SetZero, Write]);
  }

  /** `Set(0) .` has no set followed by an increment or set, in either version of the pass. */
  lemma CombineSetsKeepSetWrite()
    ensures CombineSetAndIncrements([SetZero, Write]) == [SetZero, Write]
    ensures LegacyCombineSetAndIncrements([SetZero, Write]) == [SetZero, Write]
  {
    var a := [SetZero, Write];
    assert NowhereAdjacent(a, CombinablePair);
    CombineSetsFixedPoint(a);
  }

  /** `Set(0) .` has no loop after a zero. */
  lemma DeadLoopsKeepSetWrite()
    ensures RemoveDeadLoops([SetZero, Write]) == [SetZero, Write]
  {
    var a := [SetZero, Write];
    assert NowhereAdjacent(a, DeadLoopPair);
    RemoveDeadLoopsFixedPoint(a);
  }

  /** `Set(0) .` has no set or increment before a read. */
  lemma BeforeReadKeepsSetWrite()
    ensures CombineBeforeRead([SetZero, Write]) == [SetZero, Write]
  {
    var a := [SetZero, Write];
    ReadRuleShape();
    CoalescePair(SetZero, Write, ReadRule());
    assert ReadRule()(SetZero, Write) == None;
    assert ReadWalk(a) == a;
  }

  /** `.` alone has nothing before a read. */
  lemma BeforeReadKeepsWrite()
    ensures CombineBeforeRead([Write]) == [Write]
  {
  }

  /** `remove_redundant_sets` drops the leading `Set(0)` again. */
  lemma RedundantSetsDropFront()
    ensures RemoveRedundantSets([SetZero, Write]) == [Write]
  {
    AnnotateWrite();
    RemoveUndoesAnnotate([Write]);
  }

  /** One round on `.`: the annotation's `Set(0)` comes and goes. */
  lemma OptimizeOnceKeepsWrite()
    ensures OptimizeOnce([Write]) == [Write]
  {
    CombineKeepsWrite(Wrapping);
    AnnotateWrite();
    ExtractKeepsSetWrite();
    SimplifyKeepsSetWrite();
    CombineSetsKeepSetWrite();
    DeadLoopsKeepSetWrite();
    BeforeReadKeepsSetWrite();
    RedundantSetsDropFront();
    BeforeReadKeepsWrite();
    RemovePureCodeKeepsEffects([Write]);
  }

  /** `[Write]` optimises to itself: the `Set(0)` the annotation adds is removed again. */
  lemma OptimizeKeepsWrite(fuel: nat)
    ensures Optimize([Write], fuel) == Some([Write])
  {
    OptimizeOnceKeepsWrite();
  }
}
