/**
 * Multiply-loop extraction of the fixpoint optimiser: a loop such as
 * `[->+++<]` that only moves and increments, returns the pointer to where it
 * started, decrements the start cell by one per iteration and changes some
 * other cell becomes a single `MultiplyMove`.
 */
module Multiply {
  import opened Ir
  import opened Nested

  predicate IsMove(i: Instr) {
    i.Increment? || i.PointerIncrement?
  }

  /** Only increments and pointer increments: the bodies `cell_changes` accepts. */
  predicate OnlyMoves(p: seq<Instr>) {
    forall k | 0 <= k < |p| :: IsMove(p[k])
  }

  /** How far an instruction moves the data pointer. */
  function Step(i: Instr): int {
    if i.PointerIncrement? then i.amount else 0
  }

  /** The sum of the pointer increments. */
  function NetMovement(p: seq<Instr>): int
    decreases |p|
  {
    if p == [] then 0 else Step(p[0]) + NetMovement(p[1..])
  }

  function Lookup(m: map<int, int>, c: int): int {
    if c in m then m[c] else 0
  }

  /**
   * `cell_changes`' loop from pointer position `index` with the changes so
   * far in `acc`: an increment adds, wrapping, to the entry of the cell it
   * lands on (inserting it, even when the sum is zero); a pointer increment
   * moves the position.
   */
  function ChangesFrom(p: seq<Instr>, index: int, acc: map<int, int>): map<int, int>
    requires OnlyMoves(p)
    decreases |p|
  {
    if p == [] then acc
    else if p[0].Increment? then
      var cell := index + p[0].offset;
      ChangesFrom(p[1..], index, acc[cell := Wrap(Lookup(acc, cell) + p[0].amount)])
    else ChangesFrom(p[1..], index + p[0].amount, acc)
  }

  /** `cell_changes`: relative cell to net change. */
  function CellChanges(p: seq<Instr>): map<int, int>
    requires OnlyMoves(p)
  {
    ChangesFrom(p, 0, map[])
  }

  // ---------------------------------------------------------------------
  // The reference meaning of cell_changes

  /** Some increment of `p`, run from pointer position `index`, lands on cell `c`. */
  predicate Touches(p: seq<Instr>, c: int, index: int)
    decreases |p|
  {
    p != [] && ((p[0].Increment? && index + p[0].offset == c) || Touches(p[1..], c, index + Step(p[0])))
  }

  /** The sum, unwrapped, of the increments of `p` that land on cell `c`. */
  function TotalAt(p: seq<Instr>, c: int, index: int): int
    decreases |p|
  {
    if p == [] then 0
    else (if p[0].Increment? && index + p[0].offset == c then p[0].amount else 0) + TotalAt(p[1..], c, index + Step(p[0]))
  }

  lemma {:induction false} UntouchedTotal(p: seq<Instr>, c: int, index: int)
    requires !Touches(p, c, index)
    ensures TotalAt(p, c, index) == 0
    decreases |p|
  {
    if p != [] {
      UntouchedTotal(p[1..], c, index + Step(p[0]));
    }
  }

  lemma ChangesFromMeaning(p: seq<Instr>, index: int, acc: map<int, int>, c: int)
    requires OnlyMoves(p)
    ensures c in ChangesFrom(p, index, acc) <==> c in acc || Touches(p, c, index)
    ensures Touches(p, c, index) ==> ChangesFrom(p, index, acc)[c] == Wrap(Lookup(acc, c) + TotalAt(p, c, index))
    ensures !Touches(p, c, index) && c in acc ==> ChangesFrom(p, index, acc)[c] == acc[c]
  {
    ChangesFromKeys(p, index, acc, c);
    ChangesFromValues(p, index, acc, c);
  }

  /** The cells with an entry are those of `acc` and those an increment lands on. */
  lemma {:induction false} ChangesFromKeys(p: seq<Instr>, index: int, acc: map<int, int>, c: int)
    requires OnlyMoves(p)
    ensures c in ChangesFrom(p, index, acc) <==> c in acc || Touches(p, c, index)
    decreases |p|
  {
    if p != [] {
      var rest := p[1..];
      OnlyMovesTail(p);
      if p[0].Increment? {
        var cell := index + p[0].offset;
        ChangesFromKeys(rest, index, acc[cell := Wrap(Lookup(acc, cell) + p[0].amount)], c);
      } else {
        ChangesFromKeys(rest, index + p[0].amount, acc, c);
      }
    }
  }

  /** A touched cell's entry is its earlier entry plus the wrapped total; an untouched one keeps its entry. */
  lemma {:induction false} ChangesFromValues(p: seq<Instr>, index: int, acc: map<int, int>, c: int)
    requires OnlyMoves(p)
    ensures Touches(p, c, index) ==>
      c in ChangesFrom(p, index, acc) && ChangesFrom(p, index, acc)[c] == Wrap(Lookup(acc, c) + TotalAt(p, c, index))
    ensures !Touches(p, c, index) && c in acc ==> c in ChangesFrom(p, index, acc) && ChangesFrom(p, index, acc)[c] == acc[c]
    decreases |p|
  {
    if p != [] {
      var rest := p[1..];
      OnlyMovesTail(p);
      if p[0].Increment? {
        var cell := index + p[0].offset;
        var next := acc[cell := Wrap(Lookup(acc, cell) + p[0].amount)];
        ChangesFromValues(rest, index, next, c);
        if c == cell {
          if Touches(rest, c, index) {
            WrapOfSum(Lookup(acc, c) + p[0].amount, TotalAt(rest, c, index));
          } else {
            UntouchedTotal(rest, c, index);
          }
        }
      } else {
        ChangesFromValues(rest, index + p[0].amount, acc, c);
      }
    }
  }

  lemma OnlyMovesTail(p: seq<Instr>)
    requires p != [] && OnlyMoves(p)
    ensures OnlyMoves(p[1..])
  {
    var rest := p[1..];
    assert forall k | 0 <= k < |rest| :: rest[k] == p[k + 1];
  }

  /** A cell has an entry exactly when some increment lands on it, and the entry is the wrapped total. */
  lemma CellChangesMeaning(p: seq<Instr>, c: int)
    requires OnlyMoves(p)
    ensures c in CellChanges(p) <==> Touches(p, c, 0)
    ensures c in CellChanges(p) ==> CellChanges(p)[c] == Wrap(TotalAt(p, c, 0))
  {
    ChangesFromMeaning(p, 0, map[], c);
  }

  // ---------------------------------------------------------------------
  // is_multiply_loop and extract_multiply

  /** `is_multiply_loop`, its four tests in the source's order. */
  predicate IsMultiplyLoop(i: Instr) {
    && i.Loop?
    && OnlyMoves(i.body)
    && NetMovement(i.body) == 0
    && 0 in CellChanges(i.body) && CellChanges(i.body)[0] == -1
    && |CellChanges(i.body)| >= 2
  }

  predicate NotMultiplyLoop(i: Instr) {
    !IsMultiplyLoop(i)
  }

  /**
   * A loop is a multiply loop exactly when its body only moves and
   * increments, returns the pointer, decrements the start cell by one (after
   * wrapping) and increments some other cell.
   */
  lemma MultiplyLoopMeaning(body: seq<Instr>)
    ensures IsMultiplyLoop(Loop(body)) <==>
      && OnlyMoves(body)
      && NetMovement(body) == 0
      && Touches(body, 0, 0) && Wrap(TotalAt(body, 0, 0)) == -1
      && exists c :: c != 0 && Touches(body, c, 0)
  {
    if OnlyMoves(body) {
      var m := CellChanges(body);
      CellChangesMeaning(body, 0);
      if exists c :: c != 0 && Touches(body, c, 0) {
        var c :| c != 0 && Touches(body, c, 0);
        CellChangesMeaning(body, c);
        if 0 in m {
          assert {0, c} <= m.Keys;
          assert |{0, c}| == 2;
          SubsetCard({0, c}, m.Keys);
        }
      }
      if 0 in m && |m| >= 2 {
        var c := OtherKey(m, 0);
        CellChangesMeaning(body, c);
      }
    }
  }

  lemma SubsetCard(a: set<int>, b: set<int>)
    requires a <= b
    ensures |a| <= |b|
  {
    assert b == a + (b - a);
  }

  /** A map with at least two keys has one other than `k`. */
  lemma OtherKey(m: map<int, int>, k: int) returns (c: int)
    requires k in m && |m| >= 2
    ensures c in m && c != k
  {
    if forall x | x in m.Keys :: x == k {
      SubsetCard(m.Keys, {k});
    }
    c :| c in m.Keys && c != k;
  }

  /** `extract_multiply`: multiply loops become `MultiplyMove`, other loops are searched inside. */
  function ExtractMultiply(p: seq<Instr>): (r: seq<Instr>)
    ensures |r| == |p|
    decreases p
  {
    seq(|p|, k requires 0 <= k < |p| =>
      if IsMultiplyLoop(p[k]) then MultiplyMove(CellChanges(p[k].body) - {0})
      else if p[k].Loop? then Loop(ExtractMultiply(p[k].body))
      else p[k])
  }

  /**
   * A loop becomes a `MultiplyMove` exactly when it is a multiply loop; its
   * destinations are the cells other than the start that some increment
   * lands on, each with its wrapped total change as factor.
   */
  lemma ExtractMultiplyMeaning(p: seq<Instr>, k: int)
    requires 0 <= k < |p| && p[k].Loop?
    ensures ExtractMultiply(p)[k].MultiplyMove? <==> IsMultiplyLoop(p[k])
    ensures IsMultiplyLoop(p[k]) ==> forall c :: c in ExtractMultiply(p)[k].changes <==> c != 0 && Touches(p[k].body, c, 0)
    ensures IsMultiplyLoop(p[k]) ==> forall c | c in ExtractMultiply(p)[k].changes ::
      ExtractMultiply(p)[k].changes[c] == Wrap(TotalAt(p[k].body, c, 0))
    ensures !IsMultiplyLoop(p[k]) ==> ExtractMultiply(p)[k] == Loop(ExtractMultiply(p[k].body))
  {
    if IsMultiplyLoop(p[k]) {
      forall c
        ensures c in CellChanges(p[k].body) <==> Touches(p[k].body, c, 0)
        ensures c in CellChanges(p[k].body) ==> CellChanges(p[k].body)[c] == Wrap(TotalAt(p[k].body, c, 0))
      {
        CellChangesMeaning(p[k].body, c);
      }
    }
  }

  /** A body of moves has no loop to search, so extraction leaves it alone; any other body stays other. */
  lemma ExtractKeepsMoves(b: seq<Instr>)
    ensures OnlyMoves(b) ==> ExtractMultiply(b) == b
    ensures OnlyMoves(ExtractMultiply(b)) ==> OnlyMoves(b)
  {
    var r := ExtractMultiply(b);
    forall k | 0 <= k < |b| && IsMove(r[k])
      ensures IsMove(b[k])
    {
    }
  }

  /** No multiply loop survives, at any depth. */
  lemma {:induction false} ExtractLeavesNoMultiplyLoop(p: seq<Instr>)
    ensures Everywhere(ExtractMultiply(p), NotMultiplyLoop)
    decreases p
  {
    var r := ExtractMultiply(p);
    forall k | 0 <= k < |p| && p[k].Loop? && !IsMultiplyLoop(p[k])
      ensures NotMultiplyLoop(r[k]) && Everywhere(r[k].body, NotMultiplyLoop)
    {
      ExtractLeavesNoMultiplyLoop(p[k].body);
      ExtractKeepsMoves(p[k].body);
    }
  }

  /** A program without multiply loops is left alone. */
  lemma {:induction false} ExtractFixedPoint(p: seq<Instr>)
    requires Everywhere(p, NotMultiplyLoop)
    ensures ExtractMultiply(p) == p
    decreases p
  {
    forall k | 0 <= k < |p| && p[k].Loop?
      ensures ExtractMultiply(p[k].body) == p[k].body
    {
      ExtractFixedPoint(p[k].body);
    }
  }

  lemma ExtractIdempotent(p: seq<Instr>)
    ensures ExtractMultiply(ExtractMultiply(p)) == ExtractMultiply(p)
  {
    ExtractLeavesNoMultiplyLoop(p);
    ExtractFixedPoint(ExtractMultiply(p));
  }

  // ---------------------------------------------------------------------
  // Examples

  /** One step of `cell_changes` over an increment. */
  lemma ChangesInc(a: int, o: int, rest: seq<Instr>, index: int, acc: map<int, int>)
    requires OnlyMoves(rest)
    ensures OnlyMoves([Increment(a, o)] + rest)
    ensures ChangesFrom([Increment(a, o)] + rest, index, acc)
         == ChangesFrom(rest, index, acc[index + o := Wrap(Lookup(acc, index + o) + a)])
    ensures NetMovement([Increment(a, o)] + rest) == NetMovement(rest)
  {
    assert ([Increment(a, o)] + rest)[1..] == rest;
  }

  /** One step of `cell_changes` over a pointer increment. */
  lemma ChangesPtr(a: int, rest: seq<Instr>, index: int, acc: map<int, int>)
    requires OnlyMoves(rest)
    ensures OnlyMoves([PointerIncrement(a)] + rest)
    ensures ChangesFrom([PointerIncrement(a)] + rest, index, acc) == ChangesFrom(rest, index + a, acc)
    ensures NetMovement([PointerIncrement(a)] + rest) == a + NetMovement(rest)
  {
    assert ([PointerIncrement(a)] + rest)[1..] == rest;
  }

  /** A run of `n` equal increments adds their wrapped sum to one entry. */
  lemma {:induction false} ChangesUnits(unit: int, n: nat, rest: seq<Instr>, index: int, acc: map<int, int>)
    requires n >= 1 && OnlyMoves(rest)
    ensures OnlyMoves(Units(unit, n) + rest)
    ensures ChangesFrom(Units(unit, n) + rest, index, acc)
         == ChangesFrom(rest, index, acc[index := Wrap(Lookup(acc, index) + n * unit)])
    ensures NetMovement(Units(unit, n) + rest) == NetMovement(rest)
    decreases n
  {
    var first := acc[index := Wrap(Lookup(acc, index) + unit)];
    if n == 1 {
      assert Units(unit, n) + rest == [Increment(unit, 0)] + rest;
      ChangesHere(unit, rest, index, acc);
      assert n * unit == unit;
    } else {
      var more := Units(unit, n - 1) + rest;
      assert Units(unit, n) + rest == [Increment(unit, 0)] + more;
      ChangesUnits(unit, n - 1, rest, index, first);
      ChangesHere(unit, more, index, acc);
      AddInTwoSteps(acc, index, unit, n);
    }
  }

  /** `ChangesInc` for an increment of the current cell. */
  lemma ChangesHere(a: int, rest: seq<Instr>, index: int, acc: map<int, int>)
    requires OnlyMoves(rest)
    ensures OnlyMoves([Increment(a, 0)] + rest)
    ensures ChangesFrom([Increment(a, 0)] + rest, index, acc)
         == ChangesFrom(rest, index, acc[index := Wrap(Lookup(acc, index) + a)])
    ensures NetMovement([Increment(a, 0)] + rest) == NetMovement(rest)
  {
    ChangesInc(a, 0, rest, index, acc);
    assert index + 0 == index;
  }

  lemma AddInTwoSteps(acc: map<int, int>, index: int, unit: int, n: nat)
    requires n >= 2
    ensures var first := acc[index := Wrap(Lookup(acc, index) + unit)];
      first[index := Wrap(Lookup(first, index) + (n - 1) * unit)] == acc[index := Wrap(Lookup(acc, index) + n * unit)]
  {
    var before := Lookup(acc, index);
    WrapOfSum(before + unit, (n - 1) * unit);
    assert (n - 1) * unit + unit == n * unit by {
      assert (n - 1) * unit == n * unit - unit;
    }
  }

  /** The body `[->` then `n` increments by `unit` then `<]`, as the parser produces it. */
  lemma MoveOneCell(b: seq<Instr>, unit: int, n: nat)
    requires n >= 1
    requires b == [Increment(-1, 0), PointerIncrement(1)] + Units(unit, n) + [PointerIncrement(-1)]
    ensures OnlyMoves(b) && NetMovement(b) == 0 && CellChanges(b) == map[0 := -1, 1 := Wrap(n * unit)]
  {
    var tail := [PointerIncrement(-1)];
    ChangesPtr(-1, [], 1, map[0 := -1, 1 := Wrap(n * unit)]);
    assert tail == [PointerIncrement(-1)] + [];
    var mid := Units(unit, n) + tail;
    ChangesUnits(unit, n, tail, 1, map[0 := -1]);
    ChangesPtr(1, mid, 0, map[0 := -1]);
    assert b == [Increment(-1, 0)] + ([PointerIncrement(1)] + mid);
    ChangesInc(-1, 0, [PointerIncrement(1)] + mid, 0, map[]);
  }

  /** `n` copies of `Increment(unit)`. */
  function Units(unit: int, n: nat): (r: seq<Instr>)
    ensures |r| == n
    ensures forall k | 0 <= k < n :: r[k] == Increment(unit, 0)
  {
    if n == 0 then [] else [Increment(unit, 0)] + Units(unit, n - 1)
  }

  /** A loop moving the start cell into cell 1 with factor `n * unit` becomes a one-destination `MultiplyMove`. */
  lemma ExtractMoveOneCell(b: seq<Instr>, unit: int, n: nat)
    requires n >= 1
    requires b == [Increment(-1, 0), PointerIncrement(1)] + Units(unit, n) + [PointerIncrement(-1)]
    ensures ExtractMultiply([Loop(b)]) == [MultiplyMove(map[1 := Wrap(n * unit)])]
    ensures ExtractMultiply([Loop([Loop(b)])]) == [Loop([MultiplyMove(map[1 := Wrap(n * unit)])])]
  {
    MoveOneCell(b, unit, n);
    var m := map[0 := -1, 1 := Wrap(n * unit)];
    assert m.Keys == {0, 1};
    assert m - {0} == map[1 := Wrap(n * unit)];
    assert IsMultiplyLoop(Loop(b));
    assert !IsMultiplyLoop(Loop([Loop(b)]));
  }

  /** `[->+++<]` gives factor 3, `[->--<]` factor -2, and `[[->+<]]` a `MultiplyMove` inside the outer loop. */
  lemma ExtractMultiplyExamples(simple: seq<Instr>, negative: seq<Instr>, nested: seq<Instr>)
    requires simple == [Increment(-1, 0), PointerIncrement(1), Increment(1, 0), Increment(1, 0), Increment(1, 0), PointerIncrement(-1)]
    requires negative == [Increment(-1, 0), PointerIncrement(1), Increment(-1, 0), Increment(-1, 0), PointerIncrement(-1)]
    requires nested == [Increment(-1, 0), PointerIncrement(1), Increment(1, 0), PointerIncrement(-1)]
    ensures ExtractMultiply([Loop(simple)]) == [MultiplyMove(map[1 := 3])]
    ensures ExtractMultiply([Loop(negative)]) == [MultiplyMove(map[1 := -2])]
    ensures ExtractMultiply([Loop([Loop(nested)])]) == [Loop([MultiplyMove(map[1 := 1])])]
  {
    assert Units(1, 3) == [Increment(1, 0), Increment(1, 0), Increment(1, 0)];
    assert Units(-1, 2) == [Increment(-1, 0), Increment(-1, 0)];
    assert Units(1, 1) == [Increment(1, 0)];
    ExtractMoveOneCell(simple, 1, 3);
    ExtractMoveOneCell(negative, -1, 2);
    ExtractMoveOneCell(nested, 1, 1);
  }

  /** A body without loops is left alone by extraction. */
  lemma ExtractLoopFree(b: seq<Instr>)
    requires forall k | 0 <= k < |b| :: !b[k].Loop?
    ensures ExtractMultiply(b) == b
  {
  }

  /** `[-]` changes only one cell, `[+>++<]` adds to the start cell, and `[+>++<.]` writes: none is extracted. */
  lemma ExtractMultiplyRejects(clear: seq<Instr>, upward: seq<Instr>, writes: seq<Instr>)
    requires clear == [Increment(-1, 0)]
    requires upward == [Increment(1, 0), PointerIncrement(1), Increment(1, 0), Increment(1, 0), PointerIncrement(-1)]
    requires writes == upward + [Write]
    ensures ExtractMultiply([Loop(clear)]) == [Loop(clear)]
    ensures ExtractMultiply([Loop(upward)]) == [Loop(upward)]
    ensures ExtractMultiply([Loop(writes)]) == [Loop(writes)]
  {
    ClearIsNotMultiply(clear);
    KeepsOtherLoop(clear);
    UpwardIsNotMultiply(upward);
    KeepsOtherLoop(upward);
    assert !IsMove(writes[|writes| - 1]);
    KeepsOtherLoop(writes);
  }

  /** A loop without inner loops that is not a multiply loop is left as it is. */
  lemma KeepsOtherLoop(b: seq<Instr>)
    requires !IsMultiplyLoop(Loop(b)) && forall k | 0 <= k < |b| :: !b[k].Loop?
    ensures ExtractMultiply([Loop(b)]) == [Loop(b)]
  {
    ExtractLoopFree(b);
  }

  /** `[-]` changes only its own cell. */
  lemma ClearIsNotMultiply(clear: seq<Instr>)
    requires clear == [Increment(-1, 0)]
    ensures !IsMultiplyLoop(Loop(clear))
  {
    ChangesInc(-1, 0, [], 0, map[]);
    assert clear == [Increment(-1, 0)] + [];
    assert CellChanges(clear) == map[0 := -1];
    assert (map[0 := -1]).Keys == {0};
  }

  /** `[+>++<]` adds one to its own cell instead of taking one away. */
  lemma UpwardIsNotMultiply(upward: seq<Instr>)
    requires upward == [Increment(1, 0), PointerIncrement(1), Increment(1, 0), Increment(1, 0), PointerIncrement(-1)]
    ensures !IsMultiplyLoop(Loop(upward))
  {
    var tail := [PointerIncrement(-1)];
    ChangesPtr(-1, [], 1, map[0 := 1, 1 := 2]);
    assert tail == [PointerIncrement(-1)] + [];
    ChangesInc(1, 0, tail, 1, map[0 := 1, 1 := 1]);
    ChangesInc(1, 0, [Increment(1, 0)] + tail, 1, map[0 := 1]);
    var mid := [Increment(1, 0)] + ([Increment(1, 0)] + tail);
    ChangesPtr(1, mid, 0, map[0 := 1]);
    assert upward == [Increment(1, 0)] + ([PointerIncrement(1)] + mid);
    ChangesInc(1, 0, [PointerIncrement(1)] + mid, 0, map[]);
    assert CellChanges(upward)[0] == 1;
  }

  /** `[->+++<<]` moves the pointer on every iteration: not extracted. */
  lemma ExtractMultiplyRejectsMovement(b: seq<Instr>)
    requires b == [Increment(-1, 0), PointerIncrement(1), Increment(1, 0), Increment(1, 0), Increment(1, 0), PointerIncrement(-1), PointerIncrement(-1)]
    ensures ExtractMultiply([Loop(b)]) == [Loop(b)]
  {
    MovementOfExample(b);
    KeepsOtherLoop(b);
  }

  /** `->+++<<` ends one cell left of where it began. */
  lemma MovementOfExample(b: seq<Instr>)
    requires b == [Increment(-1, 0), PointerIncrement(1), Increment(1, 0), Increment(1, 0), Increment(1, 0), PointerIncrement(-1), PointerIncrement(-1)]
    ensures NetMovement(b) == -1
  {
    NetMovementCons(b[6], []);
    NetMovementCons(b[5], b[6..]);
    NetMovementCons(b[4], b[5..]);
    NetMovementCons(b[3], b[4..]);
    NetMovementCons(b[2], b[3..]);
    NetMovementCons(b[1], b[2..]);
    NetMovementCons(b[0], b[1..]);
    assert [b[6]] + [] == b[6..];
    assert [b[5]] + b[6..] == b[5..];
    assert [b[4]] + b[5..] == b[4..];
    assert [b[3]] + b[4..] == b[3..];
    assert [b[2]] + b[3..] == b[2..];
    assert [b[1]] + b[2..] == b[1..];
    assert [b[0]] + b[1..] == b;
  }

  lemma NetMovementCons(i: Instr, rest: seq<Instr>)
    ensures NetMovement([i] + rest) == Step(i) + NetMovement(rest)
  {
    assert ([i] + rest)[1..] == rest;
  }
}
