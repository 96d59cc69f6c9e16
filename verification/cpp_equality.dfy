/**
 * Equality on the C++ instruction classes (src/bfir.cpp): `operator==` on
 * instructions compares the amounts of two `BFIncrement`s and otherwise only
 * the dynamic types; `operator==` on sequences compares sizes.  The C++
 * classes `BFIncrement`, `BFDataIncrement`, `BFRead`, `BFWrite` and `BFLoop`
 * are the `Increment`, `PointerIncrement`, `Read`, `Write` and `Loop` nodes.
 */
module CppEquality {
  import opened Ir

  /** The dynamic type of an instruction, as `typeid` distinguishes them. */
  function Kind(i: Instr): (r: nat)
    ensures r < 7
  {
    match i
    case Increment(_, _) => 0
    case PointerIncrement(_) => 1
    case Read => 2
    case Write => 3
    case Loop(_) => 4
    case Set(_, _) => 5
    case MultiplyMove(_) => 6
  }

  lemma KindIsConstructor(x: Instr, y: Instr)
    ensures Kind(x) == Kind(y) <==>
      (x.Increment? && y.Increment?) || (x.PointerIncrement? && y.PointerIncrement?) ||
      (x.Read? && y.Read?) || (x.Write? && y.Write?) || (x.Loop? && y.Loop?) ||
      (x.Set? && y.Set?) || (x.MultiplyMove? && y.MultiplyMove?)
  {
  }

  /** `operator==(BFInstruction, BFInstruction)` as written. */
  predicate InstrEq(x: Instr, y: Instr) {
    if x.Increment? && y.Increment? then x.amount == y.amount else Kind(x) == Kind(y)
  }

  /** `operator!=(BFInstruction, BFInstruction)`. */
  predicate InstrNe(x: Instr, y: Instr) {
    !InstrEq(x, y)
  }

  /** `operator==(BFSequence, BFSequence)` as written. */
  predicate SeqEq(a: seq<Instr>, b: seq<Instr>) {
    |a| == |b|
  }

  /** `operator!=(BFSequence, BFSequence)`. */
  predicate SeqNe(a: seq<Instr>, b: seq<Instr>) {
    !SeqEq(a, b)
  }

  /** The written instruction equality is an equivalence relation. */
  lemma InstrEqEquivalence(x: Instr, y: Instr, z: Instr)
    ensures InstrEq(x, x)
    ensures InstrEq(x, y) ==> InstrEq(y, x)
    ensures InstrEq(x, y) && InstrEq(y, z) ==> InstrEq(x, z)
  {
  }

  /**
   * What the written equality distinguishes: instructions of different kinds,
   * and increments with different amounts; and `!=` is its negation.
   */
  lemma InstrEqMeaning(x: Instr, y: Instr)
    ensures x == y ==> InstrEq(x, y)
    ensures InstrEq(x, y) ==> Kind(x) == Kind(y)
    ensures x.Increment? && y.Increment? ==> (InstrEq(x, y) <==> x.amount == y.amount)
    ensures InstrNe(x, y) <==> !InstrEq(x, y)
  {
  }

  /** Two sequences the written operator calls equal may differ in every element. */
  lemma SeqEqMeaning(a: seq<Instr>, b: seq<Instr>)
    ensures a == b ==> SeqEq(a, b)
    ensures |a| != |b| ==> SeqNe(a, b)
    ensures SeqNe(a, b) <==> !SeqEq(a, b)
  {
  }

  /**
   * The expectations of the C++ unit tests that the written operators do not
   * meet: pointer increments by 1 and by 2, loops with different bodies, and
   * same-length sequences with different elements all compare equal.
   */
  lemma WrittenEqualityTooCoarse()
    ensures InstrEq(PointerIncrement(1), PointerIncrement(2))
    ensures InstrEq(Loop([PointerIncrement(1)]), Loop([PointerIncrement(2)]))
    ensures InstrEq(Loop([PointerIncrement(1)]), Loop([]))
    ensures SeqEq([PointerIncrement(1)], [PointerIncrement(2)])
  {
  }

  /** Field-by-field equality, recursing into loop bodies: what the tests expect of `operator==`. */
  predicate StructEq(x: Instr, y: Instr)
    decreases x
  {
    match x
    case Increment(a, o) => y.Increment? && y.amount == a && y.offset == o
    case PointerIncrement(a) => y.PointerIncrement? && y.amount == a
    case Read => y.Read?
    case Write => y.Write?
    case Loop(body) => y.Loop? && SeqStructEq(body, y.body)
    case Set(a, o) => y.Set? && y.amount == a && y.offset == o
    case MultiplyMove(m) => y.MultiplyMove? && y.changes == m
  }

  /** Element-wise sequence equality: what the tests expect of `operator==` on sequences. */
  predicate SeqStructEq(a: seq<Instr>, b: seq<Instr>)
    decreases a
  {
    |a| == |b| && forall k | 0 <= k < |a| :: StructEq(a[k], b[k])
  }

  /** The corrected instruction equality is exactly equality of instruction trees. */
  lemma {:induction false} StructEqIsEquality(x: Instr, y: Instr)
    ensures StructEq(x, y) <==> x == y
    decreases x
  {
    if x.Loop? && y.Loop? {
      SeqStructEqIsEquality(x.body, y.body);
    }
  }

  /** The corrected sequence equality is exactly equality of sequences. */
  lemma {:induction false} SeqStructEqIsEquality(a: seq<Instr>, b: seq<Instr>)
    ensures SeqStructEq(a, b) <==> a == b
    decreases a
  {
    if |a| == |b| {
      forall k | 0 <= k < |a|
        ensures StructEq(a[k], b[k]) <==> a[k] == b[k]
      {
        StructEqIsEquality(a[k], b[k]);
      }
      if forall k | 0 <= k < |a| :: a[k] == b[k] {
        assert a == b;
      }
    }
  }

  /** The corrected operators meet every expectation of the C++ unit tests. */
  lemma CorrectedEqualityMeetsTests()
    ensures StructEq(Read, Read) && !StructEq(Read, Write)
    ensures StructEq(Write, Write) && !StructEq(Write, Increment(1, 0))
    ensures StructEq(Increment(1, 0), Increment(1, 0)) && !StructEq(Increment(1, 0), Increment(2, 0))
    ensures StructEq(PointerIncrement(1), PointerIncrement(1)) && !StructEq(PointerIncrement(1), PointerIncrement(2))
    ensures StructEq(Loop([PointerIncrement(1)]), Loop([PointerIncrement(1)]))
    ensures !StructEq(Loop([PointerIncrement(1)]), Loop([PointerIncrement(2)]))
    ensures !StructEq(Loop([PointerIncrement(1)]), Loop([]))
    ensures SeqStructEq([PointerIncrement(1)], [PointerIncrement(1)])
    ensures !SeqStructEq([PointerIncrement(1)], [])
    ensures !SeqStructEq([PointerIncrement(1)], [PointerIncrement(2)])
  {
    StructEqIsEquality(Loop([PointerIncrement(1)]), Loop([PointerIncrement(2)]));
    StructEqIsEquality(Loop([PointerIncrement(1)]), Loop([]));
    StructEqIsEquality(Loop([PointerIncrement(1)]), Loop([PointerIncrement(1)]));
    SeqStructEqIsEquality([PointerIncrement(1)], [PointerIncrement(2)]);
    SeqStructEqIsEquality([PointerIncrement(1)], [PointerIncrement(1)]);
  }

  /** `coalesceDataInstructions`: copies the sequence element by element. */
  method CoalesceDataInstructions(p: seq<Instr>) returns (r: seq<Instr>)
    ensures r == p
  {
    r := [];
    var i := 0;
    while i < |p|
      invariant i <= |p| && r == p[..i]
    {
      r := r + [p[i]];
      i := i + 1;
    }
    assert p[..|p|] == p;
  }
}
