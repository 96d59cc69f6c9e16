/**
 * The single-pass optimiser: `optimize` runs each pass once, in an order
 * different from the fixpoint optimiser's, with no multiply extraction and
 * with the older `remove_redundant_sets`, which never drops the `Set(0)`
 * that `annotate_known_zero` puts at the front.
 */
module LegacyOptimize {
  import opened Ir
  import opened Adaptors
  import opened Nested
  import opened Increments
  import opened KnownZero
  import opened Sets
  import opened PureCode
  import opened Peephole

  /** The passes up to `combine_before_read`, which both versions below share. */
  function EarlyPasses(p: seq<Instr>): seq<Instr> {
    var combined := CombinePtrIncrements(CombineIncrements(p, Unbounded));
    var annotated := AnnotateKnownZero(combined);
    CombineBeforeRead(RemoveDeadLoops(LegacyCombineSetAndIncrements(SimplifyLoops(annotated))))
  }

  /** `optimize` as written. */
  function LegacyOptimize(p: seq<Instr>): seq<Instr> {
    RemovePureCode(LegacyRemoveRedundantSets(EarlyPasses(p)))
  }

  /**
   * `optimize` with the later `remove_redundant_sets`, which also drops a
   * leading `Set(0)`: the behaviour the single-pass optimiser's own tests
   * ask for.
   */
  function CorrectedOptimize(p: seq<Instr>): seq<Instr> {
    RemovePureCode(RemoveRedundantSets(EarlyPasses(p)))
  }

  lemma LegacySetWalksPure(p: seq<Instr>)
    requires IsPure(p)
    ensures IsPure(LegacySetWalks(p))
  {
    SetRulesShape(Unbounded);
    var last := IncSetRule();
    var sum := SetIncRule(Unbounded);
    var first := SetSetRule();
    forall a, b
      ensures last(a, b) == MergeIncSet(a, b)
      ensures sum(a, b) == MergeSetInc(Unbounded, a, b)
      ensures first(a, b) == MergeSetSet(a, b)
    {
    }
    var one := Coalesce(p, first);
    var two := Coalesce(one, sum);
    CoalescePreserves(p, first, NoEffect);
    CoalescePreserves(one, sum, NoEffect);
    CoalescePreserves(two, last, NoEffect);
  }

  /** The passes up to `combine_before_read` keep a pure program pure. */
  lemma EarlyPassesPure(p: seq<Instr>)
    requires IsPure(p)
    ensures IsPure(EarlyPasses(p))
  {
    var c1 := CombineIncrements(p, Unbounded);
    CombineCountsPure(p, Cells(Unbounded));
    var c2 := CombinePtrIncrements(c1);
    CombineCountsPure(c1, Pointer);
    AnnotateInnerPure(c2);
    var a := AnnotateKnownZero(c2);
    assert a == [SetZero] + c2;
    var s := SimplifyLoops(a);
    LegacySetWalksPure(s);
    var cs := LegacyCombineSetAndIncrements(s);
    AbsorbPure(cs, IsSetZero, IsLoop);
    var d := RemoveDeadLoops(cs);
    ReadWalkPure(d);
  }

  /** A program without side effects is removed entirely. */
  lemma LegacyOptimizeOfPure(p: seq<Instr>)
    requires IsPure(p)
    ensures LegacyOptimize(p) == []
    ensures CorrectedOptimize(p) == []
  {
    EarlyPassesPure(p);
    var e := EarlyPasses(p);
    AbsorbPure(e, IsLoop, IsSetZero);
    RemovePureCodeOfPure(LegacyRemoveRedundantSets(e));
    AbsorbPure(e, IsLoopOrMultiply, IsSetZero);
    assert IsPure(RedundantSetsInner(e));
    RemovePureCodeOfPure(RemoveRedundantSets(e));
  }

  /** On `.` the early passes only add the leading `Set(0)`. */
  lemma EarlyPassesOfWrite()
    ensures EarlyPasses([Write]) == [SetZero, Write]
  {
    CombineKeepsWrite(Unbounded);
    AnnotateWrite();
    SimplifyKeepsSetWrite();
    CombineSetsKeepSetWrite();
    DeadLoopsKeepSetWrite();
    BeforeReadKeepsSetWrite();
  }

  /** The older `remove_redundant_sets` keeps the leading `Set(0)` of `Set(0) .`. */
  lemma LegacyRedundantSetsKeepFront()
    ensures LegacyRemoveRedundantSets([SetZero, Write]) == [SetZero, Write]
  {
    CoalesceAbsorbs([SetZero, Write], IsLoop, IsSetZero);
    assert DropLoopSets([SetZero, Write]) == [SetZero, Write];
  }

  /**
   * As written, `.` comes out as `Set(0) .`: one instruction more than went
   * in, although the tests expect `.` back and expect the size never to grow.
   */
  lemma LegacyOptimizeGrowsWrite()
    ensures LegacyOptimize([Write]) == [SetZero, Write]
    ensures CountInstrs(LegacyOptimize([Write])) > CountInstrs([Write])
  {
    EarlyPassesOfWrite();
    LegacyRedundantSetsKeepFront();
    RemovePureCodeKeepsEffects([SetZero, Write]);
  }

  /** The corrected pipeline gives `.` back unchanged. */
  lemma CorrectedOptimizeKeepsWrite()
    ensures CorrectedOptimize([Write]) == [Write]
  {
    EarlyPassesOfWrite();
    RedundantSetsDropFront();
    RemovePureCodeKeepsEffects([Write]);
  }
}
