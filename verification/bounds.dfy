/**
 * The cell-bounds analysis (src/bounds.rs): how far right of the start a
 * program can move the data pointer, computed over integers extended with a
 * saturating `Max`, and clamped to the largest cell index the compiler
 * allocates.  The source's `i64` never overflows here: integers are
 * unbounded.
 */
module Bounds {
  import opened Ir

  /** 100,000 cells, indexed from zero. */
  const MaxCellIndex: nat := 99999

  /** An integer, or `Max`, which is above every integer. */
  datatype SaturatingInt = Number(n: int) | Max

  /** `Add for SaturatingInt`. */
  function Add(a: SaturatingInt, b: SaturatingInt): SaturatingInt {
    if a.Number? && b.Number? then Number(a.n + b.n) else Max
  }

  /** `Ord for SaturatingInt`, as "less than or equal". */
  predicate Le(a: SaturatingInt, b: SaturatingInt) {
    match (a, b)
    case (Max, Max) => true
    case (Number(_), Max) => true
    case (Max, Number(_)) => false
    case (Number(x), Number(y)) => x <= y
  }

  /** `std::cmp::max`: the second argument unless the first is greater. */
  function Larger(a: SaturatingInt, b: SaturatingInt): (r: SaturatingInt)
    ensures Le(a, r) && Le(b, r)
    ensures r == a || r == b
  {
    if Le(a, b) then b else a
  }

  /** Addition is commutative and associative, has `Number(0)` as identity and `Max` as an absorbing element. */
  lemma AddLaws(a: SaturatingInt, b: SaturatingInt, c: SaturatingInt)
    ensures Add(a, b) == Add(b, a)
    ensures Add(Add(a, b), c) == Add(a, Add(b, c))
    ensures Add(a, Number(0)) == a
    ensures Add(a, Max) == Max
  {
  }

  /** The order is total, with `Max` on top and numbers ordered by value. */
  lemma LeTotalOrder(a: SaturatingInt, b: SaturatingInt, c: SaturatingInt)
    ensures Le(a, a)
    ensures Le(a, b) && Le(b, a) ==> a == b
    ensures Le(a, b) && Le(b, c) ==> Le(a, c)
    ensures Le(a, b) || Le(b, a)
    ensures Le(a, Max)
    ensures a.Number? && b.Number? ==> (Le(a, b) <==> a.n <= b.n)
  {
  }

  /** Adding the same value on both sides keeps the order. */
  lemma AddMonotone(a: SaturatingInt, b: SaturatingInt, c: SaturatingInt)
    requires Le(a, b)
    ensures Le(Add(c, a), Add(c, b))
  {
  }

  // ---------------------------------------------------------------------
  // The largest destination of a multiply

  /** A finite set with an element `x` has a largest element. */
  lemma {:induction false} HasLargest(s: set<int>, x: int)
    requires x in s
    ensures exists k | k in s :: forall j | j in s :: j <= k
    decreases |s|
  {
    if !forall j | j in s :: j <= x {
      var y :| y in s && y > x;
      var rest := s - {x};
      assert y in rest;
      HasLargest(rest, y);
      var k :| k in rest && forall j | j in rest :: j <= k;
      assert forall j | j in s :: j == x || j in rest;
    }
  }

  /** The loop over `changes.keys()` that starts from 0 and keeps the largest key seen. */
  function HighestAffected(changes: map<int, int>): (r: int)
    ensures r >= 0
    ensures forall k | k in changes :: k <= r
    ensures r == 0 || r in changes
  {
    if forall k | k in changes :: k <= 0 then 0
    else
      var y :| y in changes && y > 0;
      HasLargest(changes.Keys, y);
      var k :| k in changes && forall j | j in changes :: j <= k;
      k
  }

  // ---------------------------------------------------------------------
  // Movement

  /** `movement`: (highest offset reached, net pointer movement) of one instruction. */
  function Movement(i: Instr): (SaturatingInt, SaturatingInt)
    decreases i, 2
  {
    match i
    case PointerIncrement(amount) =>
      if amount < 0 then (Number(0), Number(amount)) else (Number(amount), Number(amount))
    case Increment(_, offset) => (Number(offset), Number(0))
    case Set(_, offset) => (Number(offset), Number(0))
    case MultiplyMove(changes) => (Number(HighestAffected(changes)), Number(0))
    case Loop(body) =>
      var inner := OverallMovement(body);
      if inner.1.Number? && inner.1.n <= 0 then (inner.0, Number(0)) else (Max, Max)
    case Read => (Number(0), Number(0))
    case Write => (Number(0), Number(0))
  }

  /** The loop of `overall_movement`, from a running position `net` and highest index `high`. */
  function Walk(p: seq<Instr>, net: SaturatingInt, high: SaturatingInt): (SaturatingInt, SaturatingInt)
    decreases p, 0
  {
    if p == [] then (high, net)
    else
      var m := Movement(p[0]);
      Walk(p[1..], Add(net, m.1), Larger(net, Larger(Add(net, m.0), high)))
  }

  /** `overall_movement`: (highest cell index reached, cell index at the end). */
  function OverallMovement(p: seq<Instr>): (SaturatingInt, SaturatingInt)
    decreases p, 1
  {
    Walk(p, Number(0), Number(0))
  }

  /** `highest_cell_index`: the analysis clamped to the allocated cells. */
  function HighestCellIndex(p: seq<Instr>): (r: nat)
    ensures r <= MaxCellIndex
  {
    var high := OverallMovement(p).0;
    OverallMovementBounds(p);
    if high.Max? || high.n > MaxCellIndex then MaxCellIndex else high.n
  }

  /** One instruction reaches at least as far right as it ends up, unless it does not move at all. */
  lemma MovementCoversNet(i: Instr)
    ensures Movement(i).1 == Number(0) || Le(Movement(i).1, Movement(i).0)
  {
  }

  /** The highest index never decreases along the walk, and always covers the running position. */
  lemma {:induction false} WalkBounds(p: seq<Instr>, net: SaturatingInt, high: SaturatingInt)
    requires Le(net, high)
    ensures Le(high, Walk(p, net, high).0)
    ensures Le(Walk(p, net, high).1, Walk(p, net, high).0)
    decreases p
  {
    if p != [] {
      var m := Movement(p[0]);
      var high' := Larger(net, Larger(Add(net, m.0), high));
      var net' := Add(net, m.1);
      MovementCoversNet(p[0]);
      if m.1 != Number(0) {
        AddMonotone(m.1, m.0, net);
      }
      LeTotalOrder(net', Add(net, m.0), high');
      LeTotalOrder(high, high', Walk(p[1..], net', high').0);
      WalkBounds(p[1..], net', high');
    }
  }

  /** `max_index` starts at 0 and only grows, so the result is a number of at least 0 or `Max`; it covers the final position. */
  lemma OverallMovementBounds(p: seq<Instr>)
    ensures Le(Number(0), OverallMovement(p).0)
    ensures Le(OverallMovement(p).1, OverallMovement(p).0)
  {
    WalkBounds(p, Number(0), Number(0));
  }

  /** The walk over `p` is the walk over a prefix, continued over the rest. */
  lemma {:induction false} WalkSplit(p: seq<Instr>, k: nat, net: SaturatingInt, high: SaturatingInt)
    requires k <= |p|
    ensures var w := Walk(p[..k], net, high); Walk(p, net, high) == Walk(p[k..], w.1, w.0)
    decreases k
  {
    if k > 0 {
      var m := Movement(p[0]);
      var net' := Add(net, m.1);
      var high' := Larger(net, Larger(Add(net, m.0), high));
      assert p[..k][1..] == p[1..][..k - 1];
      assert p[k..] == p[1..][k - 1..];
      WalkSplit(p[1..], k - 1, net', high');
    }
  }

  /** At every instruction boundary, the final highest index covers the highest index and the position so far. */
  lemma OverallMovementCoversPrefixes(p: seq<Instr>, k: nat)
    requires k <= |p|
    ensures Le(OverallMovement(p[..k]).0, OverallMovement(p).0)
    ensures Le(OverallMovement(p[..k]).1, OverallMovement(p).0)
  {
    var w := OverallMovement(p[..k]);
    WalkSplit(p, k, Number(0), Number(0));
    OverallMovementBounds(p[..k]);
    WalkBounds(p[k..], w.1, w.0);
    LeTotalOrder(w.1, w.0, OverallMovement(p).0);
  }

  // ---------------------------------------------------------------------
  // A reference meaning for loop-free programs

  predicate LoopFree(p: seq<Instr>) {
    forall k | 0 <= k < |p| :: !p[k].Loop?
  }

  /** How far one loop-free instruction moves the pointer. */
  function Shift(i: Instr): int {
    if i.PointerIncrement? then i.amount else 0
  }

  /** The cells one instruction reads or writes besides the current one, when the pointer is at `pos`. */
  function Local(i: Instr, pos: int): set<int> {
    match i
    case Increment(_, offset) => {pos + offset}
    case Set(_, offset) => {pos + offset}
    case MultiplyMove(changes) => set k | k in changes :: pos + k
    case _ => {}
  }

  /** Every cell a loop-free program, started at `pos`, points at or acts on. */
  function Touched(p: seq<Instr>, pos: int): set<int>
    decreases |p|
  {
    if p == [] then {pos}
    else {pos} + Local(p[0], pos) + Touched(p[1..], pos + Shift(p[0]))
  }

  /** The cells of a non-empty program: its start, the first instruction's cells and the rest's. */
  lemma TouchedCons(p: seq<Instr>, pos: int)
    requires p != []
    ensures Touched(p, pos) == {pos} + Local(p[0], pos) + Touched(p[1..], pos + Shift(p[0]))
  {
  }

  /** The position after a loop-free program. */
  function FinalPos(p: seq<Instr>, pos: int): int
    decreases |p|
  {
    if p == [] then pos else FinalPos(p[1..], pos + Shift(p[0]))
  }

  /** What one loop-free instruction does to the walk, in plain integers. */
  lemma MovementOfLoopFree(i: Instr, pos: int, h: int)
    requires !i.Loop? && pos <= h
    ensures var m := Movement(i);
      var high' := Larger(Number(pos), Larger(Add(Number(pos), m.0), Number(h)));
      Add(Number(pos), m.1) == Number(pos + Shift(i)) &&
      high'.Number? && h <= high'.n && pos + Shift(i) <= high'.n &&
      (forall x | x in Local(i, pos) :: x <= high'.n) &&
      (high'.n == h || high'.n == pos || high'.n == pos + Shift(i) || high'.n in Local(i, pos))
  {
    match i
    case MultiplyMove(changes) =>
      var r := HighestAffected(changes);
      forall x | x in Local(i, pos)
        ensures x <= pos + r
      {
        var k :| k in changes && x == pos + k;
      }
      if r != 0 {
        assert pos + r in Local(i, pos);
      }
    case Increment(_, offset) =>
      assert pos + offset in Local(i, pos);
    case Set(_, offset) =>
      assert pos + offset in Local(i, pos);
    case _ =>
  }

  lemma {:induction false} WalkLoopFree(p: seq<Instr>, pos: int, h: int)
    requires LoopFree(p) && pos <= h
    ensures var w := Walk(p, Number(pos), Number(h));
      w.0.Number? && w.1 == Number(FinalPos(p, pos)) && h <= w.0.n &&
      (forall x | x in Touched(p, pos) :: x <= w.0.n) &&
      (w.0.n == h || w.0.n in Touched(p, pos))
    decreases |p|
  {
    if p != [] {
      var m := Movement(p[0]);
      var high' := Larger(Number(pos), Larger(Add(Number(pos), m.0), Number(h)));
      MovementOfLoopFree(p[0], pos, h);
      var rest := p[1..];
      assert LoopFree(rest) by {
        assert forall k | 0 <= k < |rest| :: rest[k] == p[k + 1];
      }
      var next := pos + Shift(p[0]);
      assert Walk(p, Number(pos), Number(h)) == Walk(rest, Number(next), high');
      TouchedCons(p, pos);
      assert FinalPos(p, pos) == FinalPos(rest, next);
      assert next in Touched(rest, next);
      WalkLoopFree(rest, next, high'.n);
      var w := Walk(rest, Number(next), high');
      if w.0.n == high'.n && high'.n != h {
        assert w.0.n in Touched(p, pos);
      }
    }
  }

  /**
   * For a loop-free program the analysis is exact: the highest index is the
   * largest cell the program touches, and the net movement is where it ends.
   */
  lemma OverallMovementLoopFree(p: seq<Instr>)
    requires LoopFree(p)
    ensures OverallMovement(p).0.Number? && OverallMovement(p).0.n in Touched(p, 0)
    ensures forall x | x in Touched(p, 0) :: x <= OverallMovement(p).0.n
    ensures OverallMovement(p).1 == Number(FinalPos(p, 0))
  {
    WalkLoopFree(p, 0, 0);
    assert 0 in Touched(p, 0);
  }

  // ---------------------------------------------------------------------
  // Loops

  /** `k` runs of a loop body, one after another: what the loop does when it iterates `k` times. */
  function Iterations(body: seq<Instr>, k: nat): (r: seq<Instr>)
    ensures |r| == k * |body|
  {
    if k == 0 then [] else Iterations(body, k - 1) + body
  }

  /** Saturating addition distributes over `Larger`. */
  lemma AddLarger(a: SaturatingInt, b: SaturatingInt, c: SaturatingInt)
    ensures Add(a, Larger(b, c)) == Larger(Add(a, b), Add(a, c))
  {
  }

  /** The walk over `p + q` is the walk over `p`, continued over `q`. */
  lemma WalkAppend(p: seq<Instr>, q: seq<Instr>, net: SaturatingInt, high: SaturatingInt)
    ensures var w := Walk(p, net, high); Walk(p + q, net, high) == Walk(q, w.1, w.0)
  {
    WalkSplit(p + q, |p|, net, high);
    assert (p + q)[..|p|] == p;
    assert (p + q)[|p|..] == q;
  }

  /** The largest of `net`, `a`, `high` and `b`, grouped the two ways the walk and its shift group them. */
  lemma LargerRegroup(net: SaturatingInt, a: SaturatingInt, high: SaturatingInt, b: SaturatingInt)
    ensures Larger(Larger(net, Larger(a, high)), b) == Larger(high, Larger(Larger(net, Larger(a, net)), b))
  {
  }

  /**
   * Walking from position `net` with highest index `high` is walking from 0
   * shifted by `net`: the highest index is `high` or `net` plus the
   * program's own reach, and the end is `net` plus its own net movement.
   */
  lemma {:induction false} WalkShift(p: seq<Instr>, net: SaturatingInt, high: SaturatingInt)
    requires Le(net, high)
    ensures var own := OverallMovement(p);
      Walk(p, net, high) == (Larger(high, Add(net, own.0)), Add(net, own.1))
    decreases p
  {
    if p == [] {
      LeTotalOrder(net, high, high);
    } else {
      var m := Movement(p[0]);
      var rest := p[1..];
      var net' := Add(net, m.1);
      var a := Add(net, m.0);
      var high' := Larger(net, Larger(a, high));
      var start := Larger(Number(0), Larger(m.0, Number(0)));
      assert Walk(p, net, high) == Walk(rest, net', high');
      assert OverallMovement(p) == Walk(rest, m.1, start);
      MovementCoversNet(p[0]);
      if m.1 != Number(0) {
        AddMonotone(m.1, m.0, net);
      }
      LeTotalOrder(net', a, high');
      LeTotalOrder(m.1, m.0, start);
      WalkShift(rest, net', high');
      WalkShift(rest, m.1, start);
      var own := OverallMovement(rest);
      var b := Add(net', own.0);
      AddLaws(net, m.1, own.0);
      AddLaws(net, m.1, own.1);
      AddLarger(net, start, Add(m.1, own.0));
      AddLarger(net, Number(0), Larger(m.0, Number(0)));
      AddLarger(net, m.0, Number(0));
      assert Add(net, start) == Larger(net, Larger(a, net));
      LargerRegroup(net, a, high, b);
    }
  }

  /** One more iteration: the walk so far, continued over the body from where it ended. */
  lemma IterationsStep(body: seq<Instr>, k: nat)
    requires k >= 1
    ensures var before := OverallMovement(Iterations(body, k - 1));
      var own := OverallMovement(body);
      OverallMovement(Iterations(body, k)) == (Larger(before.0, Add(before.1, own.0)), Add(before.1, own.1))
  {
    var before := OverallMovement(Iterations(body, k - 1));
    OverallMovementBounds(Iterations(body, k - 1));
    WalkAppend(Iterations(body, k - 1), body, Number(0), Number(0));
    WalkShift(body, before.1, before.0);
  }

  /**
   * The loop rule is sound: a loop that iterates `k` times, for any `k`,
   * reaches no further right and ends no further right than its
   * `movement` says.  When the body's net movement is zero or negative, the
   * body's own reach is exact for every `k >= 1`, and the loop ends `k`
   * times the body's net movement from where it started.  When the body
   * moves right by a number, `k` iterations end that many times further
   * right, so no bound holds for every `k`: hence `Max`.
   */
  lemma {:induction false} LoopMovement(body: seq<Instr>, k: nat)
    ensures Le(OverallMovement(Iterations(body, k)).0, Movement(Loop(body)).0)
    ensures Le(OverallMovement(Iterations(body, k)).1, Movement(Loop(body)).1)
    ensures var own := OverallMovement(body);
      own.1.Number? ==> OverallMovement(Iterations(body, k)).1 == Number(k * own.1.n)
    ensures var own := OverallMovement(body);
      own.1.Number? && own.1.n <= 0 && k >= 1 ==> OverallMovement(Iterations(body, k)).0 == own.0
    decreases k
  {
    var own := OverallMovement(body);
    OverallMovementBounds(body);
    if k > 0 {
      var before := OverallMovement(Iterations(body, k - 1));
      LoopMovement(body, k - 1);
      IterationsStep(body, k);
      if own.1.Number? {
        var j := k - 1;
        var n := own.1.n;
        assert before.1 == Number(j * n);
        assert j * n + n == k * n;
        if n <= 0 {
          assert j * n <= 0;
          if k > 1 {
            assert before.0 == own.0;
          }
        }
      }
    }
  }

  // ---------------------------------------------------------------------
  // Examples from the tests

  /** `[>]` is unbounded and clamps to the last cell; `>[<]` reaches cell 1. */
  lemma UnboundedMovementExamples()
    ensures HighestCellIndex([Loop([PointerIncrement(1)])]) == MaxCellIndex
    ensures HighestCellIndex([PointerIncrement(1), Loop([PointerIncrement(-1)])]) == 1
  {
    assert OverallMovement([PointerIncrement(1)]) == (Number(1), Number(1));
    assert OverallMovement([PointerIncrement(-1)]) == (Number(0), Number(-1));
  }

  /** `>><>>` reaches cell 3; a move past the last cell clamps to 99999; an increment or a set counts at its offset. */
  lemma MovementExamples()
    ensures HighestCellIndex([PointerIncrement(2), PointerIncrement(-1), PointerIncrement(2)]) == 3
    ensures HighestCellIndex([PointerIncrement(MaxCellIndex + 1)]) == MaxCellIndex
    ensures HighestCellIndex([Increment(2, 5)]) == 5
    ensures HighestCellIndex([Set(2, 10), Set(2, 11)]) == 11
  {
    var far := [PointerIncrement(MaxCellIndex + 1)];
    assert far[1..] == [];
    assert Movement(far[0]) == (Number(MaxCellIndex + 1), Number(MaxCellIndex + 1));
    assert Larger(Number(0), Larger(Number(MaxCellIndex + 1), Number(0))) == Number(MaxCellIndex + 1);
    assert Walk(far, Number(0), Number(0)) == Walk([], Number(MaxCellIndex + 1), Number(MaxCellIndex + 1));
  }

  /** A multiply reaches its highest destination but does not move the pointer. */
  lemma MultiplyMoveExamples()
    ensures HighestCellIndex([MultiplyMove(map[1 := 3, 4 := 1]), PointerIncrement(2)]) == 4
    ensures HighestCellIndex([PointerIncrement(2), MultiplyMove(map[1 := 5])]) == 3
    ensures HighestCellIndex([PointerIncrement(1), MultiplyMove(map[-1 := 2])]) == 1
  {
    MultiplyThenMove();
    MoveThenMultiply();
    MultiplyLeftOfPointer();
  }

  /** Destinations 1 and 4, then two cells right: the destination 4 is the furthest. */
  lemma MultiplyThenMove()
    ensures HighestCellIndex([MultiplyMove(map[1 := 3, 4 := 1]), PointerIncrement(2)]) == 4
  {
    var changes := map[1 := 3, 4 := 1];
    assert changes.Keys == {1, 4};
    HighestAffectedIs(changes, 4);
  }

  /** A positive key no smaller than every key is the one `HighestAffected` finds. */
  lemma HighestAffectedIs(changes: map<int, int>, m: int)
    requires m > 0 && m in changes && forall j | j in changes :: j <= m
    ensures HighestAffected(changes) == m
  {
  }

  /** Two cells right, then destination 1: cell 3. */
  lemma MoveThenMultiply()
    ensures HighestCellIndex([PointerIncrement(2), MultiplyMove(map[1 := 5])]) == 3
  {
    assert 1 in map[1 := 5];
    assert HighestAffected(map[1 := 5]) == 1;
  }

  /** A destination to the left of the pointer adds nothing to the right. */
  lemma MultiplyLeftOfPointer()
    ensures HighestCellIndex([PointerIncrement(1), MultiplyMove(map[-1 := 2])]) == 1
  {
    assert HighestAffected(map[-1 := 2]) == 0;
  }
}
