/**
 * The iterator adaptors the peephole passes chain, specialised to instruction
 * sequences.  `Coalesce` is the adaptor of the itertools crate: it walks the
 * input holding one pending element back, asks a pairwise rule whether the
 * pending element and the next one merge, and either replaces the pending
 * element by the merge or emits it.  `Filter` is the standard one.
 */
module Adaptors {
  import opened Wrappers
  import opened Ir
  import opened Nested

  /** A pairwise rule: `Some(m)` replaces the adjacent pair by `m`, `None` keeps both. */
  type Merge = (Instr, Instr) -> Option<Instr>

  /** The walk with `pending` held back and `rest` still to come. */
  function CoalesceFrom(pending: Instr, rest: seq<Instr>, merge: Merge): (r: seq<Instr>)
    ensures 1 <= |r| <= 1 + |rest|
    decreases |rest|
  {
    if rest == [] then [pending]
    else match merge(pending, rest[0])
      case Some(m) => CoalesceFrom(m, rest[1..], merge)
      case None => [pending] + CoalesceFrom(rest[0], rest[1..], merge)
  }

  function Coalesce(p: seq<Instr>, merge: Merge): (r: seq<Instr>)
    ensures |r| <= |p|
    ensures r == [] <==> p == []
  {
    if p == [] then [] else CoalesceFrom(p[0], p[1..], merge)
  }

  /** A two-element walk: the pair merges or stays. */
  lemma CoalescePair(a: Instr, b: Instr, merge: Merge)
    ensures merge(a, b).Some? ==> Coalesce([a, b], merge) == [merge(a, b).value]
    ensures merge(a, b).None? ==> Coalesce([a, b], merge) == [a, b]
  {
    assert [a, b][0] == a && [a, b][1..] == [b];
    assert [b][0] == b && [b][1..] == [];
    match merge(a, b)
    case Some(m) =>
      assert CoalesceFrom(a, [b], merge) == CoalesceFrom(m, [], merge) == [m];
    case None =>
      assert CoalesceFrom(a, [b], merge) == [a] + CoalesceFrom(b, [], merge) == [a, b];
  }

  /** No two adjacent elements that the rule would merge. */
  predicate NoMergeablePair(q: seq<Instr>, merge: Merge) {
    forall k | 0 <= k < |q| - 1 :: merge(q[k], q[k + 1]).None?
  }

  /**
   * A rule that never invents a loop: a merged loop is one of the pair.  The
   * passes recurse into the bodies of the loops a walk returns, and this is
   * what makes that recursion well founded.
   */
  ghost predicate KeepsLoops(merge: Merge) {
    forall a, b | merge(a, b).Some? && merge(a, b).value.Loop? ::
      merge(a, b).value == a || merge(a, b).value == b
  }

  /**
   * A rule whose merge result never merges with a left neighbour that the
   * pair's first element did not merge with.  Every "same-kind run" rule has
   * this shape, and then the walk leaves no mergeable pair behind.
   */
  ghost predicate LeftStable(merge: Merge) {
    forall x, b, c | merge(b, c).Some? && merge(x, b).None? :: merge(x, merge(b, c).value).None?
  }

  /** A rule whose merge is always the pair's second element: it deletes the first. */
  ghost predicate DeletesLeft(merge: Merge) {
    forall a, b | merge(a, b).Some? :: merge(a, b).value == b
  }

  lemma {:induction false} LoopsFrom(pending: Instr, rest: seq<Instr>, merge: Merge)
    requires KeepsLoops(merge)
    ensures forall x | x in CoalesceFrom(pending, rest, merge) && x.Loop? :: x == pending || x in rest
    decreases |rest|
  {
    if rest != [] {
      LoopsFrom(rest[0], rest[1..], merge);
      match merge(pending, rest[0])
      case Some(m) => LoopsFrom(m, rest[1..], merge);
      case None =>
    }
  }

  /** Every loop the walk returns is an element of its input. */
  lemma CoalesceKeepsLoops(p: seq<Instr>, merge: Merge)
    requires KeepsLoops(merge)
    ensures forall k | 0 <= k < |Coalesce(p, merge)| && Coalesce(p, merge)[k].Loop? :: Coalesce(p, merge)[k] in p
  {
    if p != [] {
      LoopsFrom(p[0], p[1..], merge);
    }
  }

  lemma {:induction false} CoalesceFromIdentity(pending: Instr, rest: seq<Instr>, merge: Merge)
    requires NoMergeablePair([pending] + rest, merge)
    ensures CoalesceFrom(pending, rest, merge) == [pending] + rest
    decreases |rest|
  {
    if rest != [] {
      assert ([pending] + rest)[0] == pending && ([pending] + rest)[1] == rest[0];
      assert merge(pending, rest[0]).None?;
      assert forall k | 0 <= k < |rest| - 1 :: merge(rest[k], rest[k + 1]) == merge(([pending] + rest)[k + 1], ([pending] + rest)[k + 2]);
      assert [rest[0]] + rest[1..] == rest;
      CoalesceFromIdentity(rest[0], rest[1..], merge);
    }
  }

  /** A sequence with no mergeable pair is a fixed point of the walk. */
  lemma CoalesceIdentity(p: seq<Instr>, merge: Merge)
    requires NoMergeablePair(p, merge)
    ensures Coalesce(p, merge) == p
  {
    if p != [] {
      assert [p[0]] + p[1..] == p;
      CoalesceFromIdentity(p[0], p[1..], merge);
    }
  }

  lemma {:induction false} CoalesceFromNoPair(pending: Instr, rest: seq<Instr>, merge: Merge)
    requires LeftStable(merge)
    ensures NoMergeablePair(CoalesceFrom(pending, rest, merge), merge)
    ensures forall x | merge(x, pending).None? :: merge(x, CoalesceFrom(pending, rest, merge)[0]).None?
    decreases |rest|
  {
    if rest != [] {
      match merge(pending, rest[0])
      case Some(m) =>
        CoalesceFromNoPair(m, rest[1..], merge);
      case None =>
        CoalesceFromNoPair(rest[0], rest[1..], merge);
        var tail := CoalesceFrom(rest[0], rest[1..], merge);
        assert CoalesceFrom(pending, rest, merge) == [pending] + tail;
        assert merge(pending, tail[0]).None?;
    }
  }

  /** A left-stable rule leaves no mergeable pair behind. */
  lemma CoalesceNoMergeablePair(p: seq<Instr>, merge: Merge)
    requires LeftStable(merge)
    ensures NoMergeablePair(Coalesce(p, merge), merge)
  {
    if p != [] {
      CoalesceFromNoPair(p[0], p[1..], merge);
    }
  }

  /**
   * The elements a deleting rule keeps, stated position by position: an
   * element goes exactly when it merges with its successor in the input.
   */
  function KeepUnlessMerged(p: seq<Instr>, merge: Merge): (r: seq<Instr>)
    ensures |r| <= |p|
    ensures forall x | x in r :: x in p
    decreases |p|
  {
    if |p| <= 1 then p
    else (if merge(p[0], p[1]).Some? then [] else [p[0]]) + KeepUnlessMerged(p[1..], merge)
  }

  lemma {:induction false} CoalesceFromDeletesLeft(pending: Instr, rest: seq<Instr>, merge: Merge)
    requires DeletesLeft(merge)
    ensures CoalesceFrom(pending, rest, merge) == KeepUnlessMerged([pending] + rest, merge)
    decreases |rest|
  {
    var p := [pending] + rest;
    if rest != [] {
      assert p[1] == rest[0] && p[1..] == [rest[0]] + rest[1..];
      CoalesceFromDeletesLeft(rest[0], rest[1..], merge);
    }
  }

  /** For a deleting rule, the walk removes exactly the elements that merge with their successor. */
  lemma CoalesceDeletesLeft(p: seq<Instr>, merge: Merge)
    requires DeletesLeft(merge)
    ensures Coalesce(p, merge) == KeepUnlessMerged(p, merge)
  {
    if p != [] {
      assert [p[0]] + p[1..] == p;
      CoalesceFromDeletesLeft(p[0], p[1..], merge);
    }
  }

  /** The elements of `p` that `keep` accepts, in order. */
  function Filter(p: seq<Instr>, keep: Instr -> bool): (r: seq<Instr>)
    ensures |r| <= |p|
    ensures forall x | x in r :: x in p && keep(x)
    ensures forall x | x in p && keep(x) :: x in r
    decreases |p|
  {
    if p == [] then []
    else (if keep(p[0]) then [p[0]] else []) + Filter(p[1..], keep)
  }

  /** Filtering with a test that accepts everything is the identity. */
  lemma {:induction false} FilterAll(p: seq<Instr>, keep: Instr -> bool)
    requires forall k | 0 <= k < |p| :: keep(p[k])
    ensures Filter(p, keep) == p
    decreases |p|
  {
    if p != [] {
      FilterAll(p[1..], keep);
      assert [p[0]] + p[1..] == p;
    }
  }

  lemma {:induction false} CoalesceFromPreserves(pending: Instr, rest: seq<Instr>, merge: Merge, ok: Instr -> bool)
    requires ok(pending)
    requires forall k | 0 <= k < |rest| :: ok(rest[k])
    requires forall a, b | ok(a) && ok(b) && merge(a, b).Some? :: ok(merge(a, b).value)
    ensures forall k | 0 <= k < |CoalesceFrom(pending, rest, merge)| :: ok(CoalesceFrom(pending, rest, merge)[k])
    decreases |rest|
  {
    if rest != [] {
      CoalesceFromPreserves(rest[0], rest[1..], merge, ok);
      match merge(pending, rest[0])
      case Some(m) => CoalesceFromPreserves(m, rest[1..], merge, ok);
      case None =>
    }
  }

  /** A property of single instructions that every merge respects holds of the whole output when it holds of the input. */
  lemma CoalescePreserves(p: seq<Instr>, merge: Merge, ok: Instr -> bool)
    requires forall k | 0 <= k < |p| :: ok(p[k])
    requires forall a, b | ok(a) && ok(b) && merge(a, b).Some? :: ok(merge(a, b).value)
    ensures forall k | 0 <= k < |Coalesce(p, merge)| :: ok(Coalesce(p, merge)[k])
  {
    if p != [] {
      CoalesceFromPreserves(p[0], p[1..], merge, ok);
    }
  }

  /** The rule "an `absorber` swallows an `absorbed` that follows it": the merge is the absorber itself. */
  function Absorb(absorber: Instr -> bool, absorbed: Instr -> bool): Merge {
    (a: Instr, b: Instr) => if absorber(a) && absorbed(b) then Some(a) else None
  }

  lemma AbsorbShape(absorber: Instr -> bool, absorbed: Instr -> bool)
    ensures KeepsLoops(Absorb(absorber, absorbed))
    ensures LeftStable(Absorb(absorber, absorbed))
  {
  }

  /**
   * The reference meaning of an absorbing walk, as a filter with one bit of
   * state: an `absorbed` element is dropped while the last element kept is an
   * `absorber` (`active`); every other element is kept.
   */
  function DropAbsorbed(p: seq<Instr>, absorber: Instr -> bool, absorbed: Instr -> bool, active: bool): (r: seq<Instr>)
    ensures |r| <= |p|
    decreases |p|
  {
    if p == [] then []
    else if active && absorbed(p[0]) then DropAbsorbed(p[1..], absorber, absorbed, true)
    else [p[0]] + DropAbsorbed(p[1..], absorber, absorbed, absorber(p[0]))
  }

  lemma {:induction false} CoalesceFromAbsorbs(pending: Instr, rest: seq<Instr>, absorber: Instr -> bool, absorbed: Instr -> bool)
    ensures CoalesceFrom(pending, rest, Absorb(absorber, absorbed))
         == [pending] + DropAbsorbed(rest, absorber, absorbed, absorber(pending))
    decreases |rest|
  {
    var merge := Absorb(absorber, absorbed);
    if rest != [] {
      if absorber(pending) && absorbed(rest[0]) {
        assert merge(pending, rest[0]) == Some(pending);
        CoalesceFromAbsorbs(pending, rest[1..], absorber, absorbed);
      } else {
        assert merge(pending, rest[0]) == None;
        CoalesceFromAbsorbs(rest[0], rest[1..], absorber, absorbed);
      }
    }
  }

  /** An absorbing walk is exactly the one-bit filter. */
  lemma CoalesceAbsorbs(p: seq<Instr>, absorber: Instr -> bool, absorbed: Instr -> bool)
    ensures Coalesce(p, Absorb(absorber, absorbed)) == DropAbsorbed(p, absorber, absorbed, false)
  {
    if p != [] {
      CoalesceFromAbsorbs(p[0], p[1..], absorber, absorbed);
    }
  }

  /** An absorbing walk removes only `absorbed` elements: a filter that rejects those sees no change. */
  lemma {:induction false} DropAbsorbedOnlyDrops(p: seq<Instr>, absorber: Instr -> bool, absorbed: Instr -> bool, active: bool, keep: Instr -> bool)
    requires forall x :: absorbed(x) ==> !keep(x)
    ensures Filter(DropAbsorbed(p, absorber, absorbed, active), keep) == Filter(p, keep)
    decreases |p|
  {
    if p != [] {
      var tail := p[1..];
      if active && absorbed(p[0]) {
        DropAbsorbedOnlyDrops(tail, absorber, absorbed, true, keep);
      } else {
        var rest := DropAbsorbed(tail, absorber, absorbed, absorber(p[0]));
        DropAbsorbedOnlyDrops(tail, absorber, absorbed, absorber(p[0]), keep);
        assert ([p[0]] + rest)[1..] == rest;
      }
    }
  }

  /** What an absorbing coalesce removes is absorbed elements and nothing else. */
  lemma CoalesceAbsorbsOnly(p: seq<Instr>, absorber: Instr -> bool, absorbed: Instr -> bool, keep: Instr -> bool)
    requires forall x :: absorbed(x) ==> !keep(x)
    ensures Filter(Coalesce(p, Absorb(absorber, absorbed)), keep) == Filter(p, keep)
  {
    CoalesceAbsorbs(p, absorber, absorbed);
    DropAbsorbedOnlyDrops(p, absorber, absorbed, false, keep);
  }

  /**
   * A rule whose merge never forms a `bad` pair with a neighbour that the
   * merged pair's own element did not already form one with.
   */
  ghost predicate KeepsApart(merge: Merge, bad: (Instr, Instr) -> bool) {
    && (forall x, b, c | merge(b, c).Some? && !bad(x, b) :: !bad(x, merge(b, c).value))
    && (forall b, c, d | merge(b, c).Some? && !bad(c, d) :: !bad(merge(b, c).value, d))
  }

  lemma {:induction false} CoalesceFromKeepsApart(pending: Instr, rest: seq<Instr>, merge: Merge, bad: (Instr, Instr) -> bool)
    requires KeepsApart(merge, bad)
    requires NoAdjacent([pending] + rest, bad)
    ensures NoAdjacent(CoalesceFrom(pending, rest, merge), bad)
    ensures forall x | !bad(x, pending) :: !bad(x, CoalesceFrom(pending, rest, merge)[0])
    decreases |rest|
  {
    if rest != [] {
      match merge(pending, rest[0])
      case Some(m) =>
        MergedKeepsApart(pending, rest, m, merge, bad);
        CoalesceFromKeepsApart(m, rest[1..], merge, bad);
      case None =>
        ApartAfterFirst(pending, rest, bad);
        assert [rest[0]] + rest[1..] == rest;
        CoalesceFromKeepsApart(rest[0], rest[1..], merge, bad);
        EmitKeepsApart(pending, rest[0], CoalesceFrom(rest[0], rest[1..], merge), bad);
    }
  }

  /** Without its first element, a sequence still has no `bad` pair. */
  lemma ApartAfterFirst(first: Instr, rest: seq<Instr>, bad: (Instr, Instr) -> bool)
    requires NoAdjacent([first] + rest, bad)
    ensures NoAdjacent(rest, bad)
    ensures rest != [] ==> !bad(first, rest[0])
  {
    var input := [first] + rest;
    assert forall k | 0 <= k < |rest| :: rest[k] == input[k + 1];
    if rest != [] {
      assert input[0] == first && input[1] == rest[0];
    }
  }

  /** Replacing the first two elements by their merge keeps the sequence free of `bad` pairs. */
  lemma MergedKeepsApart(pending: Instr, rest: seq<Instr>, m: Instr, merge: Merge, bad: (Instr, Instr) -> bool)
    requires KeepsApart(merge, bad) && NoAdjacent([pending] + rest, bad)
    requires rest != [] && merge(pending, rest[0]) == Some(m)
    ensures NoAdjacent([m] + rest[1..], bad)
    ensures forall x | !bad(x, pending) :: !bad(x, m)
  {
    var input, tail := [pending] + rest, rest[1..];
    var next := [m] + tail;
    assert forall k | 0 <= k < |tail| :: tail[k] == input[k + 2];
    assert |tail| > 0 ==> !bad(rest[0], tail[0]) by {
      if |tail| > 0 {
        assert input[1] == rest[0] && input[2] == tail[0];
      }
    }
    forall k | 0 <= k < |next| - 1
      ensures !bad(next[k], next[k + 1])
    {
      if k > 0 {
        assert next[k] == input[k + 1] && next[k + 1] == input[k + 2];
      }
    }
  }

  /** Emitting an element in front of a walk's output that it does not form a `bad` pair with. */
  lemma EmitKeepsApart(pending: Instr, first: Instr, out: seq<Instr>, bad: (Instr, Instr) -> bool)
    requires out != [] && NoAdjacent(out, bad) && !bad(pending, first)
    requires forall x | !bad(x, first) :: !bad(x, out[0])
    ensures NoAdjacent([pending] + out, bad)
  {
    var whole := [pending] + out;
    forall k | 0 <= k < |whole| - 1
      ensures !bad(whole[k], whole[k + 1])
    {
      if k > 0 {
        assert whole[k] == out[k - 1] && whole[k + 1] == out[k];
      }
    }
  }

  /** A rule that keeps `bad` pairs apart leaves an input without them without them. */
  lemma CoalesceKeepsApart(p: seq<Instr>, merge: Merge, bad: (Instr, Instr) -> bool)
    requires KeepsApart(merge, bad)
    requires NoAdjacent(p, bad)
    ensures NoAdjacent(Coalesce(p, merge), bad)
  {
    if p != [] {
      assert [p[0]] + p[1..] == p;
      CoalesceFromKeepsApart(p[0], p[1..], merge, bad);
    }
  }

  /** A deleting walk removes only what `keep` rejects, when every deleted element is one `keep` rejects. */
  lemma {:induction false} KeepUnlessMergedOnlyDrops(p: seq<Instr>, merge: Merge, keep: Instr -> bool)
    requires forall a, b | merge(a, b).Some? :: !keep(a)
    ensures Filter(KeepUnlessMerged(p, merge), keep) == Filter(p, keep)
    decreases |p|
  {
    if |p| > 1 {
      var rest := KeepUnlessMerged(p[1..], merge);
      KeepUnlessMergedOnlyDrops(p[1..], merge, keep);
      if merge(p[0], p[1]).None? {
        assert KeepUnlessMerged(p, merge) == [p[0]] + rest;
        assert ([p[0]] + rest)[1..] == rest;
      } else {
        assert KeepUnlessMerged(p, merge) == rest;
        assert !keep(p[0]);
      }
    }
  }

  /** Filtering a sequence with a known first element. */
  lemma FilterCons(x: Instr, rest: seq<Instr>, keep: Instr -> bool)
    ensures Filter([x] + rest, keep) == (if keep(x) then [x] else []) + Filter(rest, keep)
  {
    assert ([x] + rest)[0] == x && ([x] + rest)[1..] == rest;
  }

  lemma {:induction false} CoalesceFromOnlyRejected(pending: Instr, rest: seq<Instr>, merge: Merge, keep: Instr -> bool)
    requires forall a, b | merge(a, b).Some? :: !keep(a) && !keep(b) && !keep(merge(a, b).value)
    ensures Filter(CoalesceFrom(pending, rest, merge), keep) == Filter([pending] + rest, keep)
    decreases |rest|
  {
    FilterCons(pending, rest, keep);
    if rest != [] {
      FilterCons(rest[0], rest[1..], keep);
      assert [rest[0]] + rest[1..] == rest;
      match merge(pending, rest[0])
      case Some(m) =>
        CoalesceFromOnlyRejected(m, rest[1..], merge, keep);
        FilterCons(m, rest[1..], keep);
      case None =>
        CoalesceFromOnlyRejected(rest[0], rest[1..], merge, keep);
        FilterCons(pending, CoalesceFrom(rest[0], rest[1..], merge), keep);
    }
  }

  /**
   * A walk whose rule merges only elements that `keep` rejects, into an
   * element `keep` rejects, leaves the elements `keep` accepts in order.
   */
  lemma CoalesceOnlyRejected(p: seq<Instr>, merge: Merge, keep: Instr -> bool)
    requires forall a, b | merge(a, b).Some? :: !keep(a) && !keep(b) && !keep(merge(a, b).value)
    ensures Filter(Coalesce(p, merge), keep) == Filter(p, keep)
  {
    if p != [] {
      assert [p[0]] + p[1..] == p;
      CoalesceFromOnlyRejected(p[0], p[1..], merge, keep);
    }
  }
}
