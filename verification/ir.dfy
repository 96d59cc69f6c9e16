/**
 * The compiler's intermediate representation: a tree of instructions in which
 * loops own their bodies.  Source positions are dropped; amounts are unbounded
 * integers, and the revisions whose cells are `Wrapping<i8>` wrap explicitly
 * with `Wrap`.
 */
module Ir {

  /** The value range of an 8-bit signed cell amount (`Wrapping<i8>`). */
  predicate IsI8(x: int) {
    -128 <= x < 128
  }

  /** Two's-complement wrap-around of `x` into the `i8` range. */
  function Wrap(x: int): (r: int)
    ensures IsI8(r)
    ensures (x - r) % 256 == 0
  {
    (x + 128) % 256 - 128
  }

  lemma WrapOfI8(x: int)
    requires IsI8(x)
    ensures Wrap(x) == x
  {
  }

  /** Wrapping an intermediate sum early does not change the final wrap. */
  lemma WrapOfSum(x: int, y: int)
    ensures Wrap(Wrap(x) + y) == Wrap(x + y)
  {
    var q := (x + 128) / 256;
    assert x + 128 == 256 * q + (x + 128) % 256;
    assert Wrap(x) + y + 128 == (x + y + 128) - 256 * q;
  }

  /**
   * One IR node.  `Increment` and `Set` act on the cell `offset` places from
   * the data pointer; `MultiplyMove` maps destination offsets to factors.
   */
  datatype Instr =
    | Increment(amount: int, offset: int)
    | PointerIncrement(amount: int)
    | Read
    | Write
    | Loop(body: seq<Instr>)
    | Set(amount: int, offset: int)
    | MultiplyMove(changes: map<int, int>)

  /** `Set(0)` on the current cell: the instruction the known-zero passes insert and remove. */
  const SetZero: Instr := Set(0, 0)

  /** Whether an instruction is observable or may not terminate (Read, Write, Loop). */
  predicate HasSideEffect(i: Instr) {
    i.Read? || i.Write? || i.Loop?
  }

  /** The `is_pure` test helper: no Loop, Read or Write at the top level. */
  predicate IsPure(p: seq<Instr>) {
    forall k | 0 <= k < |p| :: !HasSideEffect(p[k])
  }

  /** The `count_instrs` test helper: every node, loop bodies included. */
  function CountInstrs(p: seq<Instr>): nat
    decreases p
  {
    if p == [] then 0
    else InstrSize(p[0]) + CountInstrs(p[1..])
  }

  function InstrSize(i: Instr): nat
    decreases i
  {
    match i
    case Loop(body) => 1 + CountInstrs(body)
    case _ => 1
  }

  lemma {:induction false} CountInstrsAppend(p: seq<Instr>, q: seq<Instr>)
    ensures CountInstrs(p + q) == CountInstrs(p) + CountInstrs(q)
    decreases |p|
  {
    if p == [] {
      assert p + q == q;
    } else {
      assert (p + q)[1..] == p[1..] + q;
      CountInstrsAppend(p[1..], q);
    }
  }

  lemma CountInstrsSingle(i: Instr)
    ensures CountInstrs([i]) == InstrSize(i)
  {
    assert [i][1..] == [];
  }
}
