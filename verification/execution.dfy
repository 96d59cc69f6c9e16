/**
 * The speculative interpreter of src/execution.rs: it runs a program at
 * compile time for a bounded number of steps, over `Wrapping<u8>` cells,
 * and stops at the first `Read`, at the first pointer movement outside the
 * allocated cells, or when the steps run out.  A loop iteration that cannot
 * be completed leaves the state as it was before the loop.
 *
 * Cells and outputs are integers in `[0, 256)`, and arithmetic on cells is
 * taken modulo 256.
 * `Increment` and `Set` act on the cell `offset` places from the pointer,
 * which is the current cell in the offset-free revision the interpreter was
 * written for; a target outside the cells is a runtime error.  A
 * `MultiplyMove` visits its destinations in ascending order of offset.
 */
module Execution {
  import opened Wrappers
  import opened Ir
  import opened Bounds

  /** The step budget the compiler gives the interpreter. */
  const MaxSteps: nat := 10000000

  predicate IsByte(x: int) {
    0 <= x < 256
  }

  predicate Bytes(xs: seq<int>) {
    forall k | 0 <= k < |xs| :: IsByte(xs[k])
  }

  /** `Wrapping<u8>` arithmetic: the residue modulo 256. */
  function WrapU8(x: int): (r: int)
    ensures IsByte(r)
  {
    x % 256
  }

  /** `ExecutionState`. */
  datatype State = State(instrPtr: nat, cells: seq<int>, cellPtr: int, outputs: seq<int>)

  /** `Outcome`: a completed run reports the steps it has left. */
  datatype Outcome = Completed(remaining: nat) | ReachedRuntimeValue | RuntimeError | OutOfSteps

  /** A state the interpreter can step from: the pointer is on a cell. */
  predicate Valid(s: State) {
    0 <= s.cellPtr < |s.cells|
  }

  // ---------------------------------------------------------------------
  // The destinations of a multiply, in ascending order

  lemma {:induction false} HasSmallest(s: set<int>, x: int)
    requires x in s
    ensures exists k | k in s :: forall j | j in s :: k <= j
    decreases |s|
  {
    if !forall j | j in s :: x <= j {
      var y :| y in s && y < x;
      var rest := s - {x};
      assert y in rest;
      HasSmallest(rest, y);
      var k :| k in rest && forall j | j in rest :: k <= j;
      assert forall j | j in s :: j == x || j in rest;
    }
  }

  predicate Ascending(r: seq<int>) {
    forall i, j | 0 <= i < j < |r| :: r[i] < r[j]
  }

  /** The elements of a finite set of offsets, smallest first. */
  function SortedKeys(s: set<int>): (r: seq<int>)
    ensures Ascending(r)
    ensures forall x :: x in r <==> x in s
    decreases |s|
  {
    if forall x | x in s :: false then []
    else
      ghost var y :| y in s;
      var m := Least(s, y);
      var rest := SortedKeys(s - {m});
      SmallestFirst(s, m, rest);
      [m] + rest
  }

  /** The smallest element of a non-empty finite set. */
  function Least(s: set<int>, ghost y: int): (m: int)
    requires y in s
    ensures m in s && forall j | j in s :: m <= j
  {
    HasSmallest(s, y);
    var m :| m in s && forall j | j in s :: m <= j;
    m
  }

  /** The smallest element in front of the others in ascending order lists the set in ascending order. */
  lemma SmallestFirst(s: set<int>, m: int, rest: seq<int>)
    requires m in s && forall j | j in s :: m <= j
    requires Ascending(rest) && forall x :: x in rest <==> x in s - {m}
    ensures Ascending([m] + rest)
    ensures forall x :: x in [m] + rest <==> x in s
  {
    var r := [m] + rest;
    forall i, j | 0 <= i < j < |r|
      ensures r[i] < r[j]
    {
      assert r[j] == rest[j - 1] && rest[j - 1] in rest;
      if i > 0 {
        assert r[i] == rest[i - 1];
      }
    }
  }

  /**
   * The loop over `changes`: each destination gains `value * factor`; the
   * first destination outside the cells stops the loop, and the updates made
   * before it stay.  The flag says whether every destination was in range.
   */
  function ApplyMoves(cells: seq<int>, ptr: int, value: int, keys: seq<int>, changes: map<int, int>): (r: (seq<int>, bool))
    requires forall k | 0 <= k < |keys| :: keys[k] in changes
    ensures |r.0| == |cells|
    decreases |keys|
  {
    if keys == [] then (cells, true)
    else
      var dest := ptr + keys[0];
      if dest < 0 || dest >= |cells| then (cells, false)
      else ApplyMoves(cells[dest := WrapU8(cells[dest] + value * changes[keys[0]])], ptr, value, keys[1..], changes)
  }

  // ---------------------------------------------------------------------
  // The interpreter

  /** What one instruction does: the run goes on from a new state, or stops in one with an outcome. */
  datatype Effect = Next(state: State) | Stop(state: State, outcome: Outcome)

  /**
   * One step of `execute_inner` for every instruction but a loop that is
   * entered: the state after it, or the state the run stops in.
   */
  function Exec(i: Instr, s: State): (e: Effect)
    requires Valid(s) && !(i.Loop? && s.cells[s.cellPtr] != 0)
    ensures Valid(e.state) && |e.state.cells| == |s.cells| && s.outputs <= e.state.outputs
    ensures e.Next? ==> e.state.instrPtr == s.instrPtr + 1
    ensures e.Stop? ==> e.state.instrPtr == s.instrPtr && e.outcome in {ReachedRuntimeValue, RuntimeError}
    ensures e.Stop? && e.outcome == RuntimeError ==> e.state.cellPtr == s.cellPtr && e.state.outputs == s.outputs
  {
    var cell := s.cells[s.cellPtr];
    var next := s.instrPtr + 1;
    match i
    case Increment(amount, offset) =>
      var target := s.cellPtr + offset;
      if 0 <= target < |s.cells| then Next(s.(instrPtr := next, cells := s.cells[target := WrapU8(s.cells[target] + amount)]))
      else Stop(s, RuntimeError)
    case Set(amount, offset) =>
      var target := s.cellPtr + offset;
      if 0 <= target < |s.cells| then Next(s.(instrPtr := next, cells := s.cells[target := WrapU8(amount)]))
      else Stop(s, RuntimeError)
    case PointerIncrement(amount) =>
      var moved := s.cellPtr + amount;
      if moved < 0 || moved >= |s.cells| then Stop(s, RuntimeError)
      else Next(s.(instrPtr := next, cellPtr := moved))
    case MultiplyMove(changes) =>
      Multiply(changes, s)
    case Write =>
      Next(s.(instrPtr := next, outputs := s.outputs + [cell]))
    case Read =>
      Stop(s, ReachedRuntimeValue)
    case Loop(_) =>
      Next(s.(instrPtr := next))
  }

  /** `MultiplyMove`: the destinations in ascending order, then the current cell cleared. */
  function Multiply(changes: map<int, int>, s: State): (e: Effect)
    requires Valid(s)
    ensures Valid(e.state) && |e.state.cells| == |s.cells| && e.state.outputs == s.outputs
    ensures e.Next? ==> e.state.instrPtr == s.instrPtr + 1 && e.state.cells[s.cellPtr] == 0
    ensures e.Stop? ==> e.state.instrPtr == s.instrPtr && e.outcome == RuntimeError && e.state.cellPtr == s.cellPtr
  {
    var moves := ApplyMoves(s.cells, s.cellPtr, s.cells[s.cellPtr], SortedKeys(changes.Keys), changes);
    if moves.1 then Next(s.(instrPtr := s.instrPtr + 1, cells := moves.0[s.cellPtr := 0]))
    else Stop(s.(cells := moves.0), RuntimeError)
  }

  /**
   * `execute_inner`: the state and outcome after at most `steps` steps from
   * `s`.  Every instruction costs one step; a loop costs one step per test of
   * its cell, plus the steps its body takes.  An iteration whose body does
   * not complete restores the state from before the loop.
   */
  function Run(instrs: seq<Instr>, s: State, steps: nat): (r: (State, Outcome))
    requires Valid(s)
    ensures Valid(r.0) && |r.0.cells| == |s.cells|
    ensures s.outputs <= r.0.outputs
    ensures s.instrPtr <= |instrs| ==> r.0.instrPtr <= |instrs|
    ensures r.1.Completed? ==> 1 <= r.1.remaining <= steps && r.0.instrPtr >= |instrs|
    decreases steps, instrs
  {
    if s.instrPtr >= |instrs| || steps == 0 then
      (s, if steps == 0 then OutOfSteps else Completed(steps))
    else
      var i := instrs[s.instrPtr];
      if i.Loop? && s.cells[s.cellPtr] != 0 then
        var inner := Run(i.body, s.(instrPtr := 0), steps);
        if inner.1.Completed? then
          var after := inner.0;
          Run(instrs, s.(cells := after.cells, outputs := after.outputs, cellPtr := after.cellPtr), inner.1.remaining - 1)
        else (s, inner.1)
      else
        match Exec(i, s)
        case Next(t) => Run(instrs, t, steps - 1)
        case Stop(t, outcome) => (t, outcome)
  }

  /** The zeroed cells `execute` starts with: one more than the highest index the bounds analysis finds. */
  function InitialState(p: seq<Instr>): (s: State)
    ensures Valid(s) && s.instrPtr == 0 && s.cellPtr == 0 && s.outputs == []
    ensures |s.cells| == HighestCellIndex(p) + 1 && forall k | 0 <= k < |s.cells| :: s.cells[k] == 0
  {
    State(0, seq(HighestCellIndex(p) + 1, _ => 0), 0, [])
  }

  /** `execute`: the instruction pointer stays within the program and the cell pointer within the cells. */
  function Execute(p: seq<Instr>, steps: nat): (r: State)
    ensures r.instrPtr <= |p|
    ensures 0 <= r.cellPtr < |r.cells| && |r.cells| == HighestCellIndex(p) + 1
  {
    Run(p, InitialState(p), steps).0
  }

  // ---------------------------------------------------------------------
  // Properties

  /** `Read` stops the run where it is, and a pointer movement off the cells stops it with the state unchanged. */
  lemma RunStopsAtReadOrBadMove(instrs: seq<Instr>, s: State, steps: nat)
    requires Valid(s) && s.instrPtr < |instrs| && steps > 0
    ensures instrs[s.instrPtr] == Read ==> Run(instrs, s, steps) == (s, ReachedRuntimeValue)
    ensures instrs[s.instrPtr].PointerIncrement? && !(0 <= s.cellPtr + instrs[s.instrPtr].amount < |s.cells|)
      ==> Run(instrs, s, steps) == (s, RuntimeError)
  {
  }

  /** A loop whose body does not complete an iteration leaves the state as it was before the loop. */
  lemma LoopFailureRestores(instrs: seq<Instr>, s: State, steps: nat)
    requires Valid(s) && s.instrPtr < |instrs| && steps > 0
    requires instrs[s.instrPtr].Loop? && s.cells[s.cellPtr] != 0
    requires !Run(instrs[s.instrPtr].body, s.(instrPtr := 0), steps).1.Completed?
    ensures Run(instrs, s, steps).0 == s
    ensures Run(instrs, s, steps).1 == Run(instrs[s.instrPtr].body, s.(instrPtr := 0), steps).1
  {
  }

  /**
   * More steps change nothing about a run that completed: it ends in the
   * same state, with the extra steps left over.
   */
  lemma {:induction false} RunMoreSteps(instrs: seq<Instr>, s: State, steps: nat, extra: nat)
    requires Valid(s)
    requires Run(instrs, s, steps).1.Completed?
    ensures Run(instrs, s, steps + extra).0 == Run(instrs, s, steps).0
    ensures Run(instrs, s, steps + extra).1 == Completed(Run(instrs, s, steps).1.remaining + extra)
    decreases steps, instrs, 1
  {
    if s.instrPtr < |instrs| {
      var i := instrs[s.instrPtr];
      if i.Loop? && s.cells[s.cellPtr] != 0 {
        LoopMoreSteps(instrs, s, steps, extra);
      } else {
        var e := Exec(i, s);
        if e.Next? {
          assert Run(instrs, s, steps) == Run(instrs, e.state, steps - 1);
          assert Run(instrs, s, steps + extra) == Run(instrs, e.state, (steps - 1) + extra);
          RunMoreSteps(instrs, e.state, steps - 1, extra);
        }
      }
    }
  }

  /** `RunMoreSteps` for a loop that is entered: the body's run, then the rest from after the iteration. */
  lemma {:induction false} LoopMoreSteps(instrs: seq<Instr>, s: State, steps: nat, extra: nat)
    requires Valid(s) && s.instrPtr < |instrs| && steps > 0
    requires instrs[s.instrPtr].Loop? && s.cells[s.cellPtr] != 0
    requires Run(instrs, s, steps).1.Completed?
    ensures Run(instrs, s, steps + extra).0 == Run(instrs, s, steps).0
    ensures Run(instrs, s, steps + extra).1 == Completed(Run(instrs, s, steps).1.remaining + extra)
    decreases steps, instrs, 0
  {
    var body := instrs[s.instrPtr].body;
    var start := s.(instrPtr := 0);
    LoopCompletes(instrs, s, steps);
    var inner := Run(body, start, steps);
    var after, rem := inner.0, inner.1.remaining;
    var more := steps + extra;
    RunMoreSteps(body, start, steps, extra);
    var back := s.(cells := after.cells, outputs := after.outputs, cellPtr := after.cellPtr);
    var left := rem - 1;
    LoopIteration(instrs, s, steps, after, rem, left);
    LoopIteration(instrs, s, more, after, rem + extra, left + extra);
    RunMoreSteps(instrs, back, left, extra);
  }

  /** An entered loop completes only when an iteration of its body does. */
  lemma LoopCompletes(instrs: seq<Instr>, s: State, steps: nat)
    requires Valid(s) && s.instrPtr < |instrs| && steps > 0
    requires instrs[s.instrPtr].Loop? && s.cells[s.cellPtr] != 0
    requires Run(instrs, s, steps).1.Completed?
    ensures Run(instrs[s.instrPtr].body, s.(instrPtr := 0), steps).1.Completed?
  {
  }

  /** One completed iteration of an entered loop, named by the state and steps it leaves. */
  lemma LoopIteration(instrs: seq<Instr>, s: State, steps: nat, after: State, rem: nat, left: int)
    requires Valid(s) && s.instrPtr < |instrs| && steps > 0
    requires instrs[s.instrPtr].Loop? && s.cells[s.cellPtr] != 0
    requires Run(instrs[s.instrPtr].body, s.(instrPtr := 0), steps).0 == after
    requires Run(instrs[s.instrPtr].body, s.(instrPtr := 0), steps).1 == Completed(rem)
    requires left == rem - 1
    ensures Valid(after) && left >= 0
    ensures Run(instrs, s, steps) == Run(instrs, s.(cells := after.cells, outputs := after.outputs, cellPtr := after.cellPtr), left)
  {
  }

  /** An entered loop whose iteration completes continues from the state the body left, with the steps it left. */
  lemma LoopUnfold(instrs: seq<Instr>, s: State, steps: nat)
    requires Valid(s) && s.instrPtr < |instrs| && steps > 0
    requires instrs[s.instrPtr].Loop? && s.cells[s.cellPtr] != 0
    requires Run(instrs[s.instrPtr].body, s.(instrPtr := 0), steps).1.Completed?
    ensures var inner := Run(instrs[s.instrPtr].body, s.(instrPtr := 0), steps);
      Run(instrs, s, steps)
      == Run(instrs, s.(cells := inner.0.cells, outputs := inner.0.outputs, cellPtr := inner.0.cellPtr), inner.1.remaining - 1)
  {
  }

  /**
   * A loop with an empty body entered on a non-zero cell never finishes: the
   * run uses up every step and ends where it began, as `++[]` does.
   */
  lemma {:induction false} EmptyLoopSpins(instrs: seq<Instr>, s: State, steps: nat)
    requires Valid(s) && s.instrPtr < |instrs|
    requires instrs[s.instrPtr] == Loop([]) && s.cells[s.cellPtr] != 0
    ensures Run(instrs, s, steps) == (s, OutOfSteps)
    decreases steps
  {
    if steps > 0 {
      assert Run([], s.(instrPtr := 0), steps) == (s.(instrPtr := 0), Completed(steps));
      LoopUnfold(instrs, s, steps);
      EmptyLoopSpins(instrs, s, steps - 1);
    }
  }

  // ---------------------------------------------------------------------
  // Multiplication

  predicate Distinct(keys: seq<int>) {
    forall i, j | 0 <= i < j < |keys| :: keys[i] != keys[j]
  }

  /**
   * With every destination on a cell, the loop adds `value * factor` to each
   * destination once and leaves every other cell alone.
   */
  lemma {:induction false} ApplyMovesMeaning(cells: seq<int>, ptr: int, value: int, keys: seq<int>, changes: map<int, int>)
    requires forall k | 0 <= k < |keys| :: keys[k] in changes
    requires Distinct(keys)
    requires forall k | 0 <= k < |keys| :: 0 <= ptr + keys[k] < |cells|
    ensures ApplyMoves(cells, ptr, value, keys, changes).1
    ensures forall j | 0 <= j < |cells| :: (ApplyMoves(cells, ptr, value, keys, changes).0[j]
      == if j - ptr in keys then WrapU8(cells[j] + value * changes[j - ptr]) else cells[j])
    decreases |keys|
  {
    if keys != [] {
      var dest := ptr + keys[0];
      var updated := cells[dest := WrapU8(cells[dest] + value * changes[keys[0]])];
      var rest := keys[1..];
      assert forall k | 0 <= k < |rest| :: rest[k] == keys[k + 1];
      ApplyMovesMeaning(updated, ptr, value, rest, changes);
      forall j | 0 <= j < |cells|
        ensures ApplyMoves(cells, ptr, value, keys, changes).0[j]
          == if j - ptr in keys then WrapU8(cells[j] + value * changes[j - ptr]) else cells[j]
      {
        assert j - ptr in keys <==> j - ptr == keys[0] || j - ptr in rest;
        if j == dest {
          assert j - ptr !in rest;
        }
      }
    }
  }

  /** A destination off the cells makes the loop fail. */
  lemma {:induction false} ApplyMovesFails(cells: seq<int>, ptr: int, value: int, keys: seq<int>, changes: map<int, int>, bad: int)
    requires forall k | 0 <= k < |keys| :: keys[k] in changes
    requires bad in keys && !(0 <= ptr + bad < |cells|)
    ensures !ApplyMoves(cells, ptr, value, keys, changes).1
    decreases |keys|
  {
    if ptr + keys[0] >= 0 && ptr + keys[0] < |cells| {
      var dest := ptr + keys[0];
      var rest := keys[1..];
      assert bad in rest;
      ApplyMovesFails(cells[dest := WrapU8(cells[dest] + value * changes[keys[0]])], ptr, value, rest, changes, bad);
    }
  }

  /**
   * `MultiplyMove` with every destination on a cell: each destination gains
   * the current cell times its factor, the current cell becomes zero, and the
   * run moves on to the next instruction.
   */
  lemma MultiplyMoveStep(changes: map<int, int>, s: State)
    requires Valid(s)
    requires forall k | k in changes :: 0 <= s.cellPtr + k < |s.cells|
    ensures Multiply(changes, s) == Next(s.(instrPtr := s.instrPtr + 1, cells := Multiplied(s.cells, s.cellPtr, changes)))
  {
    var keys := SortedKeys(changes.Keys);
    assert Distinct(keys);
    MultipliedCells(s.cells, s.cellPtr, changes, keys);
  }

  /** The loop over the destinations, each once, computes `Multiplied` once the current cell is cleared. */
  lemma MultipliedCells(cells: seq<int>, ptr: int, changes: map<int, int>, keys: seq<int>)
    requires 0 <= ptr < |cells|
    requires forall k | k in changes :: 0 <= ptr + k < |cells|
    requires Distinct(keys) && forall x :: x in keys <==> x in changes
    ensures ApplyMoves(cells, ptr, cells[ptr], keys, changes).1
    ensures ApplyMoves(cells, ptr, cells[ptr], keys, changes).0[ptr := 0] == Multiplied(cells, ptr, changes)
  {
    assert forall k | 0 <= k < |keys| :: keys[k] in changes by {
      assert forall k | 0 <= k < |keys| :: keys[k] in keys;
    }
    ApplyMovesMeaning(cells, ptr, cells[ptr], keys, changes);
    var moved := ApplyMoves(cells, ptr, cells[ptr], keys, changes).0;
    var want := Multiplied(cells, ptr, changes);
    forall j | 0 <= j < |cells|
      ensures moved[ptr := 0][j] == want[j]
    {
      assert want[j] == MultipliedCell(cells, ptr, changes, j);
    }
    assert moved[ptr := 0] == want;
  }

  /** `MultiplyMove` with a destination off the cells stops the run with a runtime error. */
  lemma MultiplyMoveFails(changes: map<int, int>, s: State, bad: int)
    requires Valid(s)
    requires bad in changes && !(0 <= s.cellPtr + bad < |s.cells|)
    ensures Multiply(changes, s).Stop? && Multiply(changes, s).outcome == RuntimeError
  {
    ApplyMovesFails(s.cells, s.cellPtr, s.cells[s.cellPtr], SortedKeys(changes.Keys), changes, bad);
  }

  /** The cells after a multiply with every destination in range: the reference for `MultiplyMoveStep`. */
  function Multiplied(cells: seq<int>, ptr: int, changes: map<int, int>): (r: seq<int>)
    requires 0 <= ptr < |cells|
    ensures |r| == |cells| && r[ptr] == 0
  {
    seq(|cells|, j requires 0 <= j < |cells| => MultipliedCell(cells, ptr, changes, j))
  }

  /** Cell `j` after the multiply: cleared if current, increased if a destination, otherwise as it was. */
  function MultipliedCell(cells: seq<int>, ptr: int, changes: map<int, int>, j: int): int
    requires 0 <= ptr < |cells| && 0 <= j < |cells|
  {
    if j == ptr then 0
    else if j - ptr in changes then WrapU8(cells[j] + cells[ptr] * changes[j - ptr])
    else cells[j]
  }

  // ---------------------------------------------------------------------
  // Examples from the tests

  /** `Increment` with its target on a cell adds the amount there, wrapping, and moves on. */
  lemma IncrementStep(amount: int, offset: int, s: State)
    requires Valid(s) && 0 <= s.cellPtr + offset < |s.cells|
    ensures var t := s.cellPtr + offset;
      Exec(Increment(amount, offset), s) == Next(s.(instrPtr := s.instrPtr + 1, cells := s.cells[t := WrapU8(s.cells[t] + amount)]))
  {
  }

  /** `+` on a fresh cell gives 1. */
  lemma IncrementExample()
    ensures Run([Increment(1, 0)], State(0, [0], 0, []), MaxSteps) == (State(1, [1], 0, []), Completed(MaxSteps - 1))
  {
    var p := [Increment(1, 0)];
    assert WrapU8(0 + 1) == 1;
    assert [0][0 := 1] == [1];
    IncrementStep(1, 0, State(0, [0], 0, []));
    assert Run(p, State(0, [0], 0, []), MaxSteps) == Run(p, State(1, [1], 0, []), MaxSteps - 1);
  }

  /** `-` on a fresh cell wraps to 255. */
  lemma DecrementWrapExample()
    ensures Run([Increment(-1, 0)], State(0, [0], 0, []), MaxSteps) == (State(1, [255], 0, []), Completed(MaxSteps - 1))
  {
    var p := [Increment(-1, 0)];
    assert WrapU8(0 + -1) == 255;
    assert [0][0 := 255] == [255];
    IncrementStep(-1, 0, State(0, [0], 0, []));
    assert Run(p, State(0, [0], 0, []), MaxSteps) == Run(p, State(1, [255], 0, []), MaxSteps - 1);
  }

  /** `+` on a cell holding 255 wraps to 0. */
  lemma IncrementWrapExample()
    ensures Run([Increment(1, 0)], State(0, [255], 0, []), MaxSteps) == (State(1, [0], 0, []), Completed(MaxSteps - 1))
  {
    var p := [Increment(1, 0)];
    assert WrapU8(255 + 1) == 0;
    assert [255][0 := 0] == [0];
    IncrementStep(1, 0, State(0, [255], 0, []));
    assert Run(p, State(0, [255], 0, []), MaxSteps) == Run(p, State(1, [0], 0, []), MaxSteps - 1);
  }

  /** `++++` with two steps stops after the second increment. */
  lemma StepLimitExample()
    ensures Run([Increment(1, 0), Increment(1, 0), Increment(1, 0), Increment(1, 0)], State(0, [0], 0, []), 2)
         == (State(2, [2], 0, []), OutOfSteps)
  {
    var p := [Increment(1, 0), Increment(1, 0), Increment(1, 0), Increment(1, 0)];
    assert WrapU8(0 + 1) == 1;
    assert [0][0 := 1] == [1];
    IncrementStep(1, 0, State(0, [0], 0, []));
    assert WrapU8(1 + 1) == 2;
    assert [1][0 := 2] == [2];
    IncrementStep(1, 0, State(1, [1], 0, []));
    assert Run(p, State(0, [0], 0, []), 2) == Run(p, State(1, [1], 0, []), 1);
    assert Run(p, State(1, [1], 0, []), 1) == Run(p, State(2, [2], 0, []), 0);
  }

  /** `,.` stops at the read without moving on. */
  lemma ReadStopsExample()
    ensures Run([Read, Write], State(0, [0], 0, []), MaxSteps) == (State(0, [0], 0, []), ReachedRuntimeValue)
  {
    assert Exec(Read, State(0, [0], 0, [])) == Stop(State(0, [0], 0, []), ReachedRuntimeValue);
  }

  /** `<` on the first cell is a runtime error, with the state unchanged. */
  lemma MoveLeftStopsExample()
    ensures Run([PointerIncrement(-1)], State(0, [0], 0, []), MaxSteps) == (State(0, [0], 0, []), RuntimeError)
  {
    assert Exec(PointerIncrement(-1), State(0, [0], 0, [])) == Stop(State(0, [0], 0, []), RuntimeError);
  }

  /** `+.` writes 1. */
  lemma WriteExample()
    ensures Run([Increment(1, 0), Write], State(0, [0], 0, []), MaxSteps) == (State(2, [1], 0, [1]), Completed(MaxSteps - 2))
  {
    var p := [Increment(1, 0), Write];
    assert WrapU8(0 + 1) == 1;
    assert [0][0 := 1] == [1];
    IncrementStep(1, 0, State(0, [0], 0, []));
    assert [] + [1] == [1];
    assert Exec(Write, State(1, [1], 0, [])) == Next(State(2, [1], 0, [1]));
    assert Run(p, State(0, [0], 0, []), MaxSteps) == Run(p, State(1, [1], 0, []), MaxSteps - 1);
    assert Run(p, State(1, [1], 0, []), MaxSteps - 1) == Run(p, State(2, [1], 0, [1]), MaxSteps - 2);
  }

  /** `execute` on `+` allocates the single cell the bounds analysis asks for. */
  lemma ExecuteExample()
    ensures Execute([Increment(1, 0)], MaxSteps) == State(1, [1], 0, [])
  {
    assert OverallMovement([Increment(1, 0)]) == (Number(0), Number(0));
    assert InitialState([Increment(1, 0)]) == State(0, [0], 0, []);
    IncrementExample();
  }
}
