/**
 * `combine_set_and_increments` in both revisions, and `combine_before_read`.
 * In both, a write to a cell that is overwritten before anything reads it
 * goes; the revisions differ in the order of their three walks and in
 * whether the sum of a `Set` and an `Increment` wraps.
 */
module Sets {
  import opened Wrappers
  import opened Ir
  import opened Adaptors
  import opened Nested
  import opened Increments

  // ---------------------------------------------------------------------
  // The three pairwise rules of combine_set_and_increments

  /** An increment of the cell the next instruction sets. */
  predicate IncThenSet(a: Instr, b: Instr) {
    a.Increment? && b.Set? && a.offset == b.offset
  }

  /** A set followed by an increment of the same cell. */
  predicate SetThenInc(a: Instr, b: Instr) {
    a.Set? && b.Increment? && a.offset == b.offset
  }

  /** Two sets of the same cell. */
  predicate SetThenSet(a: Instr, b: Instr) {
    a.Set? && b.Set? && a.offset == b.offset
  }

  /** `(Increment, Set(b))` becomes `Set(b)`. */
  function MergeIncSet(a: Instr, b: Instr): Option<Instr> {
    if IncThenSet(a, b) then Some(b) else None
  }

  /** `(Set(a), Increment(b))` becomes `Set(a + b)`, wrapping or not as the revision does. */
  function MergeSetInc(arith: Arith, a: Instr, b: Instr): Option<Instr> {
    if SetThenInc(a, b) then Some(Set(Norm(Cells(arith), a.amount + b.amount), a.offset)) else None
  }

  /** `(Set, Set(b))` becomes `Set(b)`. */
  function MergeSetSet(a: Instr, b: Instr): Option<Instr> {
    if SetThenSet(a, b) then Some(b) else None
  }

  function IncSetRule(): Merge {
    (a: Instr, b: Instr) => MergeIncSet(a, b)
  }

  function SetIncRule(arith: Arith): Merge {
    (a: Instr, b: Instr) => MergeSetInc(arith, a, b)
  }

  function SetSetRule(): Merge {
    (a: Instr, b: Instr) => MergeSetSet(a, b)
  }

  lemma SetRulesShape(arith: Arith)
    ensures KeepsLoops(IncSetRule()) && KeepsLoops(SetIncRule(arith)) && KeepsLoops(SetSetRule())
    ensures LeftStable(SetIncRule(arith)) && LeftStable(SetSetRule())
    ensures KeepsApart(SetSetRule(), SetThenInc) && KeepsApart(IncSetRule(), SetThenInc)
  {
    var inc := IncSetRule();
    var sum := SetIncRule(arith);
    var last := SetSetRule();
    forall a, b
      ensures inc(a, b) == MergeIncSet(a, b)
      ensures sum(a, b) == MergeSetInc(arith, a, b)
      ensures last(a, b) == MergeSetSet(a, b)
    {
    }
  }

  // ---------------------------------------------------------------------
  // combine_set_and_increments (fixpoint optimiser)

  /** The top level: `(Inc, Set)`, then `(Set, Inc)` with wrapping, then `(Set, Set)`. */
  function SetWalks(p: seq<Instr>): (q: seq<Instr>)
    ensures forall k | 0 <= k < |q| && q[k].Loop? :: q[k] in p
  {
    SetRulesShape(Wrapping);
    var one := Coalesce(p, IncSetRule());
    var two := Coalesce(one, SetIncRule(Wrapping));
    CoalesceKeepsLoops(p, IncSetRule());
    CoalesceKeepsLoops(one, SetIncRule(Wrapping));
    CoalesceKeepsLoops(two, SetSetRule());
    Coalesce(two, SetSetRule())
  }

  /** `combine_set_and_increments` of the fixpoint optimiser. */
  function CombineSetAndIncrements(p: seq<Instr>): (r: seq<Instr>)
    decreases p
  {
    var q := SetWalks(p);
    seq(|q|, k requires 0 <= k < |q| => if q[k].Loop? then Loop(CombineSetAndIncrements(q[k].body)) else q[k])
  }

  /** A walk leaves no pair its own left-stable rule would merge. */
  lemma WalkLeavesApart(p: seq<Instr>, merge: Merge, bad: (Instr, Instr) -> bool)
    requires LeftStable(merge)
    requires forall a, b | bad(a, b) :: merge(a, b).Some?
    ensures NoAdjacent(Coalesce(p, merge), bad)
  {
    var q := Coalesce(p, merge);
    CoalesceNoMergeablePair(p, merge);
    forall k | 0 <= k < |q| - 1
      ensures !bad(q[k], q[k + 1])
    {
      assert merge(q[k], q[k + 1]).None?;
    }
  }

  /** After the three walks, no set is followed by a set or an increment of the same cell. */
  lemma SetWalksLeaveNoPairs(p: seq<Instr>)
    ensures NoAdjacent(SetWalks(p), SetThenSet)
    ensures NoAdjacent(SetWalks(p), SetThenInc)
  {
    SetRulesShape(Wrapping);
    var one := Coalesce(p, IncSetRule());
    var two := Coalesce(one, SetIncRule(Wrapping));
    WalkLeavesApart(one, SetIncRule(Wrapping), SetThenInc);
    CoalesceKeepsApart(two, SetSetRule(), SetThenInc);
    WalkLeavesApart(two, SetSetRule(), SetThenSet);
  }

  /** At every depth, no set is followed by a set or an increment of the same cell. */
  lemma {:induction false} CombineSetsLeavesNoPairs(p: seq<Instr>)
    ensures NowhereAdjacent(CombineSetAndIncrements(p), SetThenSet)
    ensures NowhereAdjacent(CombineSetAndIncrements(p), SetThenInc)
    decreases p
  {
    var q := SetWalks(p);
    var r := CombineSetAndIncrements(p);
    SetWalksLeaveNoPairs(p);
    forall k | 0 <= k < |r| - 1
      ensures !SetThenSet(r[k], r[k + 1]) && !SetThenInc(r[k], r[k + 1])
    {
      assert !SetThenSet(q[k], q[k + 1]) && !SetThenInc(q[k], q[k + 1]);
    }
    forall k | 0 <= k < |q| && q[k].Loop?
      ensures NowhereAdjacent(CombineSetAndIncrements(q[k].body), SetThenSet)
      ensures NowhereAdjacent(CombineSetAndIncrements(q[k].body), SetThenInc)
    {
      CombineSetsLeavesNoPairs(q[k].body);
    }
  }

  // ---------------------------------------------------------------------
  // combine_set_and_increments (single-pass optimiser)

  /** The top level: `(Set, Set)`, then `(Set, Inc)` without wrapping, then `(Inc, Set)`. */
  function LegacySetWalks(p: seq<Instr>): (q: seq<Instr>)
    ensures forall k | 0 <= k < |q| && q[k].Loop? :: q[k] in p
  {
    SetRulesShape(Unbounded);
    var one := Coalesce(p, SetSetRule());
    var two := Coalesce(one, SetIncRule(Unbounded));
    CoalesceKeepsLoops(p, SetSetRule());
    CoalesceKeepsLoops(one, SetIncRule(Unbounded));
    CoalesceKeepsLoops(two, IncSetRule());
    Coalesce(two, IncSetRule())
  }

  /** `combine_set_and_increments` of the single-pass optimiser. */
  function LegacyCombineSetAndIncrements(p: seq<Instr>): (r: seq<Instr>)
    decreases p
  {
    var q := LegacySetWalks(p);
    seq(|q|, k requires 0 <= k < |q| => if q[k].Loop? then Loop(LegacyCombineSetAndIncrements(q[k].body)) else q[k])
  }

  /** At every depth, no set is followed by an increment of the same cell. */
  lemma {:induction false} LegacyCombineSetsLeavesNoSetInc(p: seq<Instr>)
    ensures NowhereAdjacent(LegacyCombineSetAndIncrements(p), SetThenInc)
    decreases p
  {
    SetRulesShape(Unbounded);
    var one := Coalesce(p, SetSetRule());
    var two := Coalesce(one, SetIncRule(Unbounded));
    WalkLeavesApart(one, SetIncRule(Unbounded), SetThenInc);
    CoalesceKeepsApart(two, IncSetRule(), SetThenInc);
    var q := LegacySetWalks(p);
    var r := LegacyCombineSetAndIncrements(p);
    forall k | 0 <= k < |r| - 1
      ensures !SetThenInc(r[k], r[k + 1])
    {
      assert !SetThenInc(q[k], q[k + 1]);
    }
    forall k | 0 <= k < |q| && q[k].Loop?
      ensures NowhereAdjacent(LegacyCombineSetAndIncrements(q[k].body), SetThenInc)
    {
      LegacyCombineSetsLeavesNoSetInc(q[k].body);
    }
  }

  // ---------------------------------------------------------------------
  // Both revisions

  /** A pair one of the three rules merges. */
  predicate CombinablePair(a: Instr, b: Instr) {
    IncThenSet(a, b) || SetThenInc(a, b) || SetThenSet(a, b)
  }

  /** A walk whose rule merges only `bad` pairs leaves an input without them alone. */
  lemma WalkIdentity(p: seq<Instr>, merge: Merge, bad: (Instr, Instr) -> bool)
    requires forall a, b | merge(a, b).Some? :: bad(a, b)
    requires NoAdjacent(p, bad)
    ensures Coalesce(p, merge) == p
  {
    forall k | 0 <= k < |p| - 1
      ensures merge(p[k], p[k + 1]).None?
    {
      assert !bad(p[k], p[k + 1]);
    }
    CoalesceIdentity(p, merge);
  }

  /** A program with nothing to combine, at any depth, is a fixed point of both revisions. */
  lemma {:induction false} CombineSetsFixedPoint(p: seq<Instr>)
    requires NowhereAdjacent(p, CombinablePair)
    ensures CombineSetAndIncrements(p) == p
    ensures LegacyCombineSetAndIncrements(p) == p
    decreases p
  {
    SetRulesShape(Wrapping);
    SetRulesShape(Unbounded);
    WalkIdentity(p, IncSetRule(), CombinablePair);
    WalkIdentity(p, SetIncRule(Wrapping), CombinablePair);
    WalkIdentity(p, SetIncRule(Unbounded), CombinablePair);
    WalkIdentity(p, SetSetRule(), CombinablePair);
    assert SetWalks(p) == p;
    assert LegacySetWalks(p) == p;
    forall k | 0 <= k < |p| && p[k].Loop?
      ensures CombineSetAndIncrements(p[k].body) == p[k].body
      ensures LegacyCombineSetAndIncrements(p[k].body) == p[k].body
    {
      CombineSetsFixedPoint(p[k].body);
    }
  }

  /** `Set(a)` then `Increment(b)` becomes one wrapped `Set`; `Set(-1)`, `Increment(1)` gives a `Set(0)` that stays. */
  lemma CombineSetIncrementPair(a: int, b: int)
    requires IsI8(a) && IsI8(b)
    ensures CombineSetAndIncrements([Set(a, 0), Increment(b, 0)]) == [Set(Wrap(a + b), 0)]
  {
    SetWalksOfSetIncrement(a, b);
  }

  /** The three walks on a set and an increment of the same cell: only the middle one acts. */
  lemma SetWalksOfSetIncrement(a: int, b: int)
    ensures SetWalks([Set(a, 0), Increment(b, 0)]) == [Set(Wrap(a + b), 0)]
  {
    CoalescePair(Set(a, 0), Increment(b, 0), IncSetRule());
    CoalescePair(Set(a, 0), Increment(b, 0), SetIncRule(Wrapping));
    assert [Set(Wrap(a + b), 0)][0] == Set(Wrap(a + b), 0) && [Set(Wrap(a + b), 0)][1..] == [];
  }

  /** `Set(-1)` then `+` is `Set(0)`: the sum wraps back to zero. */
  lemma ClearAfterMinusOne()
    ensures CombineSetAndIncrements([Set(-1, 0), Increment(1, 0)]) == [SetZero]
  {
    CombineSetIncrementPair(-1, 1);
  }

  /** A later set of the same cell wins, in both revisions. */
  lemma CombineSetSetPair(a: int, b: int)
    ensures CombineSetAndIncrements([Set(a, 0), Set(b, 0)]) == [Set(b, 0)]
    ensures LegacyCombineSetAndIncrements([Set(a, 0), Set(b, 0)]) == [Set(b, 0)]
  {
    CoalescePair(Set(a, 0), Set(b, 0), IncSetRule());
    CoalescePair(Set(a, 0), Set(b, 0), SetIncRule(Wrapping));
    CoalescePair(Set(a, 0), Set(b, 0), SetSetRule());
    assert SetWalks([Set(a, 0), Set(b, 0)]) == [Set(b, 0)];
    assert LegacySetWalks([Set(a, 0), Set(b, 0)]) == [Set(b, 0)];
  }

  /** A set overwrites the increment before it, in both revisions. */
  lemma CombineIncrementSetPair()
    ensures CombineSetAndIncrements([Increment(2, 0), Set(3, 0)]) == [Set(3, 0)]
    ensures LegacyCombineSetAndIncrements([Increment(2, 0), Set(3, 0)]) == [Set(3, 0)]
  {
    CoalescePair(Increment(2, 0), Set(3, 0), IncSetRule());
    CoalescePair(Increment(2, 0), Set(3, 0), SetIncRule(Unbounded));
    CoalescePair(Increment(2, 0), Set(3, 0), SetSetRule());
    assert SetWalks([Increment(2, 0), Set(3, 0)]) == [Set(3, 0)];
    assert LegacySetWalks([Increment(2, 0), Set(3, 0)]) == [Set(3, 0)];
  }

  /** Inside a loop too: `[Set(0), Set(1)]` becomes `[Set(1)]`. */
  lemma CombineSetsNested()
    ensures CombineSetAndIncrements([Loop([SetZero, Set(1, 0)])]) == [Loop([Set(1, 0)])]
  {
    var p := [Loop([SetZero, Set(1, 0)])];
    CombineSetSetPair(0, 1);
    assert IncSetRule()(p[0], p[0]) == None;
    assert Coalesce(p, IncSetRule()) == p;
    assert Coalesce(p, SetIncRule(Wrapping)) == p;
    assert SetWalks(p) == p;
  }

  /**
   * The two orders differ: on `Set(1), Increment(2), Set(3)` the fixpoint
   * revision ends with one set, the single-pass revision with two adjacent
   * sets of the same cell.
   */
  lemma SetWalkOrdersDiffer()
    ensures CombineSetAndIncrements([Set(1, 0), Increment(2, 0), Set(3, 0)]) == [Set(3, 0)]
    ensures LegacyCombineSetAndIncrements([Set(1, 0), Increment(2, 0), Set(3, 0)]) == [Set(3, 0), Set(3, 0)]
  {
    var p := [Set(1, 0), Increment(2, 0), Set(3, 0)];
    assert p[1..] == [Increment(2, 0), Set(3, 0)] && p[1..][1..] == [Set(3, 0)];
    var one := [Set(1, 0), Set(3, 0)];
    assert IncSetRule()(p[0], p[1]) == None;
    assert IncSetRule()(p[1], p[2]) == Some(Set(3, 0));
    assert Coalesce(p, IncSetRule()) == one;
    assert SetIncRule(Wrapping)(one[0], one[1]) == None;
    assert Coalesce(one, SetIncRule(Wrapping)) == one;
    assert SetSetRule()(one[0], one[1]) == Some(Set(3, 0));
    assert SetWalks(p) == [Set(3, 0)];
    assert SetSetRule()(p[0], p[1]) == None;
    assert SetSetRule()(p[1], p[2]) == None;
    assert Coalesce(p, SetSetRule()) == p;
    assert SetIncRule(Unbounded)(p[0], p[1]) == Some(Set(3, 0));
    assert SetIncRule(Unbounded)(Set(3, 0), p[2]) == None;
    var two := [Set(3, 0), Set(3, 0)];
    assert Coalesce(p, SetIncRule(Unbounded)) == two;
    assert IncSetRule()(two[0], two[1]) == None;
    assert LegacySetWalks(p) == two;
  }

  /**
   * One pass is not idempotent: of two increments before a set only the
   * second is overwritten, and the first goes on the next pass.
   */
  lemma CombineSetsNotIdempotent()
    ensures CombineSetAndIncrements([Increment(1, 0), Increment(1, 0), SetZero]) == [Increment(1, 0), SetZero]
    ensures CombineSetAndIncrements([Increment(1, 0), SetZero]) == [SetZero]
  {
    var p := [Increment(1, 0), Increment(1, 0), SetZero];
    var one := [Increment(1, 0), SetZero];
    assert p[1..] == [Increment(1, 0), SetZero] && p[1..][1..] == [SetZero];
    assert IncSetRule()(p[0], p[1]) == None;
    assert IncSetRule()(p[1], p[2]) == Some(SetZero);
    assert CoalesceFrom(p[1], [SetZero], IncSetRule()) == [SetZero];
    assert CoalesceFrom(p[0], p[1..], IncSetRule()) == [p[0]] + [SetZero];
    assert Coalesce(p, IncSetRule()) == one;
    CoalescePair(Increment(1, 0), SetZero, SetIncRule(Wrapping));
    CoalescePair(Increment(1, 0), SetZero, SetSetRule());
    CoalescePair(Increment(1, 0), SetZero, IncSetRule());
    assert SetWalks(p) == one;
    assert SetWalks(one) == [SetZero];
  }

  // ---------------------------------------------------------------------
  // What the three walks keep (both revisions)

  /** An instruction the three rules can merge: a write to a cell. */
  predicate CellWrite(i: Instr) {
    i.Set? || i.Increment?
  }

  /** Anything the three rules leave alone. */
  predicate NotSetOrIncrement(i: Instr) {
    !CellWrite(i)
  }

  /**
   * The pointer, and the cells written so far by absolute index.  A cell
   * outside the map holds 0; since every statement below is for every
   * store, this covers every initial tape.
   */
  datatype Store = Store(ptr: int, cells: map<int, int>)

  function Held(s: Store, cell: int): int {
    if cell in s.cells then s.cells[cell] else 0
  }

  /** One cell write: `Set` stores its amount, `Increment` adds to the cell, wrapping or not as the revision does. */
  function Assign(arith: Arith, i: Instr, s: Store): (r: Store)
    requires CellWrite(i)
    ensures r.ptr == s.ptr
    ensures Held(r, s.ptr + i.offset) == if i.Set? then i.amount else Norm(Cells(arith), Held(s, s.ptr + i.offset) + i.amount)
    ensures forall cell | cell != s.ptr + i.offset :: Held(r, cell) == Held(s, cell)
  {
    var cell := s.ptr + i.offset;
    s.(cells := s.cells[cell := if i.Set? then i.amount else Norm(Cells(arith), Held(s, cell) + i.amount)])
  }

  /**
   * The straight-line meaning of a program that the three walks must keep:
   * every instruction other than a cell write, paired with the store it
   * meets, and the store at the end.  A pointer move moves the pointer; a
   * loop, a read, a write or a multiply is an opaque event.
   */
  function Trace(arith: Arith, p: seq<Instr>, s: Store): (seq<(Instr, Store)>, Store)
    decreases |p|
  {
    if p == [] then ([], s)
    else if CellWrite(p[0]) then Trace(arith, p[1..], Assign(arith, p[0], s))
    else
      var rest := Trace(arith, p[1..], Past(p[0], s));
      ([(p[0], s)] + rest.0, rest.1)
  }

  /** A rule that merges two cell writes into one cell write with the same effect on every store. */
  ghost predicate SoundRule(arith: Arith, merge: Merge) {
    forall a, b | merge(a, b).Some? ::
      && CellWrite(a) && CellWrite(b) && CellWrite(merge(a, b).value)
      && forall s :: Assign(arith, merge(a, b).value, s) == Assign(arith, b, Assign(arith, a, s))
  }

  /** `Set(a)` then `Increment(b)` on one cell leaves `a + b` there, normalised as the revision does. */
  lemma SetIncSound(arith: Arith, a: Instr, b: Instr, s: Store)
    requires SetThenInc(a, b)
    ensures Assign(arith, MergeSetInc(arith, a, b).value, s) == Assign(arith, b, Assign(arith, a, s))
  {
    var cell := s.ptr + a.offset;
    var once := Assign(arith, MergeSetInc(arith, a, b).value, s);
    var twice := Assign(arith, b, Assign(arith, a, s));
    assert once.cells == s.cells[cell := Norm(Cells(arith), a.amount + b.amount)];
    assert twice.cells == s.cells[cell := a.amount][cell := Norm(Cells(arith), a.amount + b.amount)];
    assert once.cells == twice.cells;
  }

  /** A later write overwrites an earlier write or increment of the same cell. */
  lemma OverwriteSound(arith: Arith, a: Instr, b: Instr, s: Store)
    requires CellWrite(a) && b.Set? && a.offset == b.offset
    ensures Assign(arith, b, s) == Assign(arith, b, Assign(arith, a, s))
  {
    var cell := s.ptr + a.offset;
    var once := Assign(arith, b, s);
    var twice := Assign(arith, b, Assign(arith, a, s));
    assert once.cells == s.cells[cell := b.amount];
    assert twice.cells == Assign(arith, a, s).cells[cell := b.amount];
    assert once.cells == twice.cells;
  }

  /** Each of the three rules merges only cell writes, into one with the same effect. */
  lemma SetRulesSound(arith: Arith)
    ensures SoundRule(arith, IncSetRule())
    ensures SoundRule(arith, SetIncRule(arith))
    ensures SoundRule(arith, SetSetRule())
    ensures forall a, b | IncSetRule()(a, b).Some? || SetIncRule(arith)(a, b).Some? || SetSetRule()(a, b).Some? ::
      !NotSetOrIncrement(a) && !NotSetOrIncrement(b)
  {
    forall a, b, s | MergeIncSet(a, b).Some?
      ensures Assign(arith, MergeIncSet(a, b).value, s) == Assign(arith, b, Assign(arith, a, s))
    {
      OverwriteSound(arith, a, b, s);
    }
    forall a, b, s | MergeSetSet(a, b).Some?
      ensures Assign(arith, MergeSetSet(a, b).value, s) == Assign(arith, b, Assign(arith, a, s))
    {
      OverwriteSound(arith, a, b, s);
    }
    forall a, b, s | MergeSetInc(arith, a, b).Some?
      ensures Assign(arith, MergeSetInc(arith, a, b).value, s) == Assign(arith, b, Assign(arith, a, s))
    {
      SetIncSound(arith, a, b, s);
    }
    var inc, sum, last := IncSetRule(), SetIncRule(arith), SetSetRule();
    forall a, b
      ensures inc(a, b) == MergeIncSet(a, b)
      ensures sum(a, b) == MergeSetInc(arith, a, b)
      ensures last(a, b) == MergeSetSet(a, b)
    {
    }
  }

  /** Where the store goes after an instruction that is not a cell write. */
  function Past(i: Instr, s: Store): Store {
    if i.PointerIncrement? then s.(ptr := s.ptr + i.amount) else s
  }

  /** The trace of a sequence with a known first element. */
  lemma TraceCons(arith: Arith, x: Instr, t: seq<Instr>, s: Store)
    ensures CellWrite(x) ==> Trace(arith, [x] + t, s) == Trace(arith, t, Assign(arith, x, s))
    ensures !CellWrite(x) ==>
      Trace(arith, [x] + t, s) == ([(x, s)] + Trace(arith, t, Past(x, s)).0, Trace(arith, t, Past(x, s)).1)
  {
    assert ([x] + t)[0] == x && ([x] + t)[1..] == t;
  }

  lemma {:induction false} CoalesceFromKeepsTrace(arith: Arith, pending: Instr, rest: seq<Instr>, merge: Merge, s: Store)
    requires SoundRule(arith, merge)
    ensures Trace(arith, CoalesceFrom(pending, rest, merge), s) == Trace(arith, [pending] + rest, s)
    decreases |rest|
  {
    if rest != [] {
      var tail := rest[1..];
      assert [rest[0]] + tail == rest;
      TraceCons(arith, pending, rest, s);
      match merge(pending, rest[0])
      case Some(m) =>
        CoalesceFromKeepsTrace(arith, m, tail, merge, s);
        TraceCons(arith, m, tail, s);
        TraceCons(arith, rest[0], tail, Assign(arith, pending, s));
        assert Assign(arith, m, s) == Assign(arith, rest[0], Assign(arith, pending, s));
      case None =>
        var out := CoalesceFrom(rest[0], tail, merge);
        assert CoalesceFrom(pending, rest, merge) == [pending] + out;
        TraceCons(arith, pending, out, s);
        var next := if CellWrite(pending) then Assign(arith, pending, s) else Past(pending, s);
        CoalesceFromKeepsTrace(arith, rest[0], tail, merge, next);
    }
  }

  /** A walk with a sound rule keeps the trace on every store. */
  lemma CoalesceKeepsTrace(arith: Arith, p: seq<Instr>, merge: Merge, s: Store)
    requires SoundRule(arith, merge)
    ensures Trace(arith, Coalesce(p, merge), s) == Trace(arith, p, s)
  {
    if p != [] {
      assert [p[0]] + p[1..] == p;
      CoalesceFromKeepsTrace(arith, p[0], p[1..], merge, s);
    }
  }

  /**
   * The three walks of either revision change no cell write's outcome: from
   * every store, the result meets every other instruction with the same
   * pointer and cells, and ends with the same ones.  In particular each
   * `Set` they emit holds the value its absorbed run leaves in the cell.
   * The instructions other than cell writes survive, in order.
   */
  lemma SetWalksKeepMeaning(p: seq<Instr>, s: Store)
    ensures Trace(Wrapping, SetWalks(p), s) == Trace(Wrapping, p, s)
    ensures Trace(Unbounded, LegacySetWalks(p), s) == Trace(Unbounded, p, s)
    ensures Filter(SetWalks(p), NotSetOrIncrement) == Filter(p, NotSetOrIncrement)
    ensures Filter(LegacySetWalks(p), NotSetOrIncrement) == Filter(p, NotSetOrIncrement)
  {
    SetRulesSound(Wrapping);
    SetRulesSound(Unbounded);
    var one := Coalesce(p, IncSetRule());
    var two := Coalesce(one, SetIncRule(Wrapping));
    CoalesceKeepsTrace(Wrapping, p, IncSetRule(), s);
    CoalesceKeepsTrace(Wrapping, one, SetIncRule(Wrapping), s);
    CoalesceKeepsTrace(Wrapping, two, SetSetRule(), s);
    CoalesceOnlyRejected(p, IncSetRule(), NotSetOrIncrement);
    CoalesceOnlyRejected(one, SetIncRule(Wrapping), NotSetOrIncrement);
    CoalesceOnlyRejected(two, SetSetRule(), NotSetOrIncrement);
    var one' := Coalesce(p, SetSetRule());
    var two' := Coalesce(one', SetIncRule(Unbounded));
    CoalesceKeepsTrace(Unbounded, p, SetSetRule(), s);
    CoalesceKeepsTrace(Unbounded, one', SetIncRule(Unbounded), s);
    CoalesceKeepsTrace(Unbounded, two', IncSetRule(), s);
    CoalesceOnlyRejected(p, SetSetRule(), NotSetOrIncrement);
    CoalesceOnlyRejected(one', SetIncRule(Unbounded), NotSetOrIncrement);
    CoalesceOnlyRejected(two', IncSetRule(), NotSetOrIncrement);
  }

  // ---------------------------------------------------------------------
  // combine_before_read (both revisions)

  /** A write to the current cell that the next instruction, a read, overwrites. */
  predicate OverwrittenByRead(a: Instr, b: Instr) {
    (a.Increment? || a.Set?) && a.offset == 0 && b.Read?
  }

  /** Anything but a write to the current cell. */
  predicate NotCellWrite(i: Instr) {
    !((i.Increment? || i.Set?) && i.offset == 0)
  }

  function MergeBeforeRead(a: Instr, b: Instr): Option<Instr> {
    if OverwrittenByRead(a, b) then Some(Read) else None
  }

  function ReadRule(): Merge {
    (a: Instr, b: Instr) => MergeBeforeRead(a, b)
  }

  lemma ReadRuleShape()
    ensures KeepsLoops(ReadRule()) && DeletesLeft(ReadRule())
    ensures forall a, b | ReadRule()(a, b).Some? :: !NotCellWrite(a)
  {
    var merge := ReadRule();
    forall a, b
      ensures merge(a, b) == MergeBeforeRead(a, b)
    {
    }
  }

  /** The top level of `combine_before_read`. */
  function ReadWalk(p: seq<Instr>): (q: seq<Instr>)
    ensures forall k | 0 <= k < |q| && q[k].Loop? :: q[k] in p
  {
    ReadRuleShape();
    CoalesceKeepsLoops(p, ReadRule());
    Coalesce(p, ReadRule())
  }

  /** `combine_before_read`. */
  function CombineBeforeRead(p: seq<Instr>): (r: seq<Instr>)
    decreases p
  {
    var q := ReadWalk(p);
    seq(|q|, k requires 0 <= k < |q| => if q[k].Loop? then Loop(CombineBeforeRead(q[k].body)) else q[k])
  }

  /**
   * The walk removes exactly the instructions that write the current cell
   * right before a read, and everything else stays in order.
   */
  lemma ReadWalkDropsOverwritten(p: seq<Instr>)
    ensures ReadWalk(p) == KeepUnlessMerged(p, ReadRule())
    ensures Filter(ReadWalk(p), NotCellWrite) == Filter(p, NotCellWrite)
  {
    ReadRuleShape();
    CoalesceDeletesLeft(p, ReadRule());
    KeepUnlessMergedOnlyDrops(p, ReadRule(), NotCellWrite);
  }

  /** `+,.` loses the increment; inside a loop the same happens. */
  lemma CombineBeforeReadExamples()
    ensures CombineBeforeRead([Increment(1, 0), Read, Write]) == [Read, Write]
    ensures CombineBeforeRead([Set(1, 0), Loop([Increment(1, 0), Read])]) == [Set(1, 0), Loop([Read])]
  {
    ReadWalkIncrementReadWrite();
    BeforeReadInLoop();
  }

  /** Inside a loop `+,` becomes `,`; the set in front of the loop stays. */
  lemma BeforeReadInLoop()
    ensures CombineBeforeRead([Set(1, 0), Loop([Increment(1, 0), Read])]) == [Set(1, 0), Loop([Read])]
  {
    ReadWalkIncrementRead();
    assert CombineBeforeRead([Increment(1, 0), Read]) == [Read];
    ReadWalkSetLoop();
  }

  /** `+,` walks to `,`. */
  lemma ReadWalkIncrementRead()
    ensures ReadWalk([Increment(1, 0), Read]) == [Read]
  {
    ReadRuleShape();
    var b := [Increment(1, 0), Read];
    CoalesceDeletesLeft(b, ReadRule());
    assert ReadRule()(b[0], b[1]).Some?;
  }

  /** `+,.` walks to `,.`. */
  lemma ReadWalkIncrementReadWrite()
    ensures ReadWalk([Increment(1, 0), Read, Write]) == [Read, Write]
  {
    ReadRuleShape();
    var p := [Increment(1, 0), Read, Write];
    CoalesceDeletesLeft(p, ReadRule());
    assert ReadRule()(p[0], p[1]).Some? && ReadRule()(p[1], p[2]).None?;
    assert KeepUnlessMerged(p[1..], ReadRule()) == [Read, Write];
  }

  /** A set before a loop is not merged with it. */
  lemma ReadWalkSetLoop()
    ensures ReadWalk([Set(1, 0), Loop([Increment(1, 0), Read])]) == [Set(1, 0), Loop([Increment(1, 0), Read])]
  {
    ReadRuleShape();
    var n := [Set(1, 0), Loop([Increment(1, 0), Read])];
    CoalesceDeletesLeft(n, ReadRule());
    assert ReadRule()(n[0], n[1]).None?;
  }
}
