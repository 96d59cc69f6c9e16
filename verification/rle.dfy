/**
 * `run_length_encode` of src/llvm.rs, which turns the initial cell values
 * into runs of equal values, and the offset arithmetic of `add_cells_init`,
 * which emits one `memset` per run at the running sum of the counts before
 * it.  The cell type is any type with equality.
 */
module RunLength {

  /** `n` copies of `v`. */
  function Repeat<T>(v: T, n: nat): (r: seq<T>)
    ensures |r| == n && forall k | 0 <= k < n :: r[k] == v
  {
    seq(n, _ => v)
  }

  /** The cells a sequence of runs stands for: each `(v, n)` as `n` copies of `v`. */
  function Expand<T>(runs: seq<(T, nat)>): seq<T> {
    if runs == [] then [] else Repeat(runs[0].0, runs[0].1) + Expand(runs[1..])
  }

  /** The sum of the counts. */
  function Total<T>(runs: seq<(T, nat)>): nat {
    if runs == [] then 0 else runs[0].1 + Total(runs[1..])
  }

  /** Runs as the encoder produces them: no empty run, and no two neighbours with the same value. */
  predicate Maximal<T(==)>(runs: seq<(T, nat)>) {
    (forall k | 0 <= k < |runs| :: runs[k].1 >= 1) &&
    (forall k | 0 <= k < |runs| - 1 :: runs[k].0 != runs[k + 1].0)
  }

  /**
   * The `coalesce` over `(value, 1)` pairs: `run` is the pending pair, which
   * grows while the next value equals its own and is pushed otherwise.
   */
  function EncodeFrom<T(==)>(run: (T, nat), rest: seq<T>): seq<(T, nat)>
    decreases |rest|
  {
    if rest == [] then [run]
    else if rest[0] == run.0 then EncodeFrom((run.0, run.1 + 1), rest[1..])
    else [run] + EncodeFrom((rest[0], 1), rest[1..])
  }

  /** `run_length_encode`. */
  function RunLengthEncode<T(==)>(cells: seq<T>): seq<(T, nat)> {
    if cells == [] then [] else EncodeFrom((cells[0], 1), cells[1..])
  }

  // ---------------------------------------------------------------------
  // Expanding the runs gives the cells back

  lemma ExpandCons<T>(run: (T, nat), runs: seq<(T, nat)>)
    ensures Expand([run] + runs) == Repeat(run.0, run.1) + Expand(runs)
    ensures Total([run] + runs) == run.1 + Total(runs)
  {
    assert ([run] + runs)[1..] == runs;
  }

  lemma {:induction false} ExpandEncodeFrom<T>(run: (T, nat), rest: seq<T>)
    ensures Expand(EncodeFrom(run, rest)) == Repeat(run.0, run.1) + rest
    decreases |rest|
  {
    if rest == [] {
      ExpandCons(run, []);
    } else if rest[0] == run.0 {
      ExpandEncodeFrom((run.0, run.1 + 1), rest[1..]);
      assert Repeat(run.0, run.1 + 1) + rest[1..] == Repeat(run.0, run.1) + rest;
    } else {
      ExpandEncodeFrom((rest[0], 1), rest[1..]);
      ExpandCons(run, EncodeFrom((rest[0], 1), rest[1..]));
      assert Repeat(rest[0], 1) + rest[1..] == rest;
    }
  }

  /** Expanding the encoding of the cells gives the cells back. */
  lemma ExpandEncode<T>(cells: seq<T>)
    ensures Expand(RunLengthEncode(cells)) == cells
  {
    if cells != [] {
      ExpandEncodeFrom((cells[0], 1), cells[1..]);
      assert Repeat(cells[0], 1) + cells[1..] == cells;
    }
  }

  /** The length of the expansion is the sum of the counts. */
  lemma {:induction false} ExpandLength<T>(runs: seq<(T, nat)>)
    ensures |Expand(runs)| == Total(runs)
  {
    if runs != [] {
      ExpandLength(runs[1..]);
    }
  }

  // ---------------------------------------------------------------------
  // The runs are maximal

  lemma {:induction false} EncodeFromMaximal<T>(run: (T, nat), rest: seq<T>)
    requires run.1 >= 1
    ensures var r := EncodeFrom(run, rest); |r| >= 1 && r[0].0 == run.0 && Maximal(r)
    decreases |rest|
  {
    if rest == [] {
    } else if rest[0] == run.0 {
      EncodeFromMaximal((run.0, run.1 + 1), rest[1..]);
    } else {
      var more := EncodeFrom((rest[0], 1), rest[1..]);
      EncodeFromMaximal((rest[0], 1), rest[1..]);
      var r := [run] + more;
      assert forall k | 1 <= k < |r| :: r[k] == more[k - 1];
    }
  }

  /** Every count is at least one, neighbouring runs differ, and the counts add up to the number of cells. */
  lemma EncodeMaximal<T>(cells: seq<T>)
    ensures Maximal(RunLengthEncode(cells))
    ensures Total(RunLengthEncode(cells)) == |cells|
    ensures |RunLengthEncode(cells)| <= |cells|
  {
    if cells != [] {
      EncodeFromMaximal((cells[0], 1), cells[1..]);
    }
    ExpandEncode(cells);
    ExpandLength(RunLengthEncode(cells));
    MaximalShorter(RunLengthEncode(cells));
  }

  /** With no empty run there are no more runs than cells. */
  lemma {:induction false} MaximalShorter<T>(runs: seq<(T, nat)>)
    requires forall k | 0 <= k < |runs| :: runs[k].1 >= 1
    ensures |runs| <= Total(runs)
  {
    if runs != [] {
      MaximalShorter(runs[1..]);
    }
  }

  // ---------------------------------------------------------------------
  // Maximal runs are encoded back to themselves

  /** A pending run swallows copies of its own value. */
  lemma {:induction false} EncodeFromRepeat<T>(v: T, n: nat, k: nat, rest: seq<T>)
    ensures EncodeFrom((v, n), Repeat(v, k) + rest) == EncodeFrom((v, n + k), rest)
    decreases k
  {
    if k > 0 {
      var cells := Repeat(v, k) + rest;
      assert cells[0] == v;
      assert cells[1..] == Repeat(v, k - 1) + rest;
      assert EncodeFrom((v, n), cells) == EncodeFrom((v, n + 1), cells[1..]);
      EncodeFromRepeat(v, n + 1, k - 1, rest);
      assert n + 1 + (k - 1) == n + k;
    } else {
      assert Repeat(v, 0) + rest == rest;
    }
  }

  lemma {:induction false} EncodeFromExpand<T>(run: (T, nat), runs: seq<(T, nat)>)
    requires Maximal(runs)
    requires runs == [] || runs[0].0 != run.0
    ensures EncodeFrom(run, Expand(runs)) == [run] + runs
    decreases |runs|
  {
    if runs != [] {
      var w := runs[0].0;
      var m := runs[0].1;
      var tail := runs[1..];
      assert Maximal(tail) by {
        assert forall k | 0 <= k < |tail| :: tail[k] == runs[k + 1];
      }
      var cells := Expand(runs);
      assert cells == Repeat(w, m) + Expand(tail);
      assert cells[0] == w;
      assert cells[1..] == Repeat(w, m - 1) + Expand(tail);
      EncodeFromRepeat(w, 1, m - 1, Expand(tail));
      EncodeFromExpand((w, m), tail);
      assert [(w, m)] + tail == runs;
    }
  }

  /** Encoding the expansion of maximal runs gives the runs back: the encoding is the only maximal one. */
  lemma EncodeExpand<T>(runs: seq<(T, nat)>)
    requires Maximal(runs)
    ensures RunLengthEncode(Expand(runs)) == runs
  {
    if runs != [] {
      var v := runs[0].0;
      var n := runs[0].1;
      var tail := runs[1..];
      assert Maximal(tail) by {
        assert forall k | 0 <= k < |tail| :: tail[k] == runs[k + 1];
      }
      var cells := Expand(runs);
      assert cells[0] == v;
      assert cells[1..] == Repeat(v, n - 1) + Expand(tail);
      EncodeFromRepeat(v, 1, n - 1, Expand(tail));
      EncodeFromExpand((v, n), tail);
      assert [(v, n)] + tail == runs;
    }
  }

  /** The example in the doc comment of `run_length_encode`. */
  lemma EncodeExample()
    ensures RunLengthEncode([1, 1, 0, 0, 0]) == [(1, 2), (0, 3)]
  {
    var cells := [1, 1, 0, 0, 0];
    assert cells[1..] == [1, 0, 0, 0];
    assert EncodeFrom((0, 3), []) == [(0, 3)];
  }

  // ---------------------------------------------------------------------
  // The memsets of `add_cells_init`

  /** One `memset`: `count` cells set to `value`, starting at `offset`. */
  datatype Memset<T> = Memset(value: T, offset: nat, count: nat)

  /** Cell `Total(runs[..k]) + i` of the expansion belongs to run `k`. */
  lemma {:induction false} ExpandAt<T>(runs: seq<(T, nat)>, k: nat, i: nat)
    requires k < |runs| && i < runs[k].1
    ensures Total(runs[..k]) + i < |Expand(runs)|
    ensures Expand(runs)[Total(runs[..k]) + i] == runs[k].0
    decreases k
  {
    var first := Repeat(runs[0].0, runs[0].1);
    assert Expand(runs) == first + Expand(runs[1..]);
    if k > 0 {
      ExpandAt(runs[1..], k - 1, i);
      assert runs[..k] == [runs[0]] + runs[1..][..k - 1];
      ExpandCons(runs[0], runs[1..][..k - 1]);
    }
  }

  lemma {:induction false} TotalSnoc<T>(runs: seq<(T, nat)>, run: (T, nat))
    ensures Total(runs + [run]) == Total(runs) + run.1
  {
    if runs != [] {
      assert (runs + [run])[1..] == runs[1..] + [run];
      TotalSnoc(runs[1..], run);
    }
  }

  /** The `memset` for each run, at the sum of the counts before it. */
  function Plan<T>(runs: seq<(T, nat)>): (plan: seq<Memset<T>>)
    ensures |plan| == |runs|
  {
    seq(|runs|, k requires 0 <= k < |runs| => Memset(runs[k].0, Total(runs[..k]), runs[k].1))
  }

  /**
   * The `memset`s of the runs of `init` follow one another with no gap,
   * start at cell zero and end at the last cell.
   */
  lemma PlanContiguous<T>(init: seq<T>)
    ensures var plan := Plan(RunLengthEncode(init));
      (|plan| > 0 ==> plan[0].offset == 0) &&
      (forall k | 0 <= k < |plan| - 1 :: plan[k + 1].offset == plan[k].offset + plan[k].count) &&
      (|plan| > 0 ==> plan[|plan| - 1].offset + plan[|plan| - 1].count == |init|)
  {
    var runs := RunLengthEncode(init);
    var plan := Plan(runs);
    EncodeMaximal(init);
    if |plan| > 0 {
      assert runs[..0] == [];
      var last := |plan| - 1;
      TotalSnoc(runs[..last], runs[last]);
      assert runs[..last] + [runs[last]] == runs;
      assert plan[last] == Memset(runs[last].0, Total(runs[..last]), runs[last].1);
    }
    forall m | 0 <= m < |plan| - 1
      ensures plan[m + 1].offset == plan[m].offset + plan[m].count
    {
      TotalSnoc(runs[..m], runs[m]);
      assert runs[..m + 1] == runs[..m] + [runs[m]];
    }
  }

  /** Each `memset` of `plan` sets only cells of `init` that hold its value. */
  predicate SetsOwnValue<T(==)>(init: seq<T>, plan: seq<Memset<T>>) {
    forall k, j | 0 <= k < |plan| && plan[k].offset <= j < plan[k].offset + plan[k].count ::
      j < |init| && init[j] == plan[k].value
  }

  /** Each `memset` of the runs of `init` sets only cells of `init` that hold its value. */
  lemma PlanTiles<T>(init: seq<T>)
    ensures SetsOwnValue(init, Plan(RunLengthEncode(init)))
  {
    var plan := Plan(RunLengthEncode(init));
    forall k: int, j: int | 0 <= k < |plan| && plan[k].offset <= j < plan[k].offset + plan[k].count
      ensures j < |init| && init[j] == plan[k].value
    {
      PlanCell(init, k, j);
    }
  }

  lemma PlanCell<T>(init: seq<T>, k: int, j: int)
    requires var plan := Plan(RunLengthEncode(init));
      0 <= k < |plan| && plan[k].offset <= j < plan[k].offset + plan[k].count
    ensures var plan := Plan(RunLengthEncode(init));
      j < |init| && init[j] == plan[k].value
  {
    var runs := RunLengthEncode(init);
    ExpandEncode(init);
    ExpandAt(runs, k, j - Total(runs[..k]));
  }

  /** `add_cells_init`'s loop: one `memset` per run of `init`, with `offset` the running sum of the counts. */
  method CellsInit<T(==)>(init: seq<T>) returns (plan: seq<Memset<T>>)
    ensures plan == Plan(RunLengthEncode(init))
  {
    var runs := RunLengthEncode(init);
    plan := [];
    var offset: nat := 0;
    var k := 0;
    while k < |runs|
      invariant 0 <= k <= |runs| && |plan| == k
      invariant offset == Total(runs[..k])
      invariant forall m | 0 <= m < k :: plan[m] == Memset(runs[m].0, Total(runs[..m]), runs[m].1)
    {
      plan := plan + [Memset(runs[k].0, offset, runs[k].1)];
      TotalSnoc(runs[..k], runs[k]);
      assert runs[..k + 1] == runs[..k] + [runs[k]];
      offset := offset + runs[k].1;
      k := k + 1;
    }
  }

  /** The cells `[1, 1, 2, 0, 0, 0]` are set by three `memset`s, at offsets 0, 2 and 3. */
  method CellsInitExample() returns (plan: seq<Memset<int>>)
    ensures plan == [Memset(1, 0, 2), Memset(2, 2, 1), Memset(0, 3, 3)]
  {
    var cells := [1, 1, 2, 0, 0, 0];
    assert cells[1..] == [1, 2, 0, 0, 0];
    var runs := [(1, 2), (2, 1), (0, 3)];
    assert RunLengthEncode(cells) == runs;
    assert runs[..0] == [] && runs[..1] == [(1, 2)] && runs[..2] == [(1, 2), (2, 1)];
    assert [(1, 2), (2, 1)][1..] == [(2, 1)] && [(2, 1)][1..] == [];
    assert [(1, 2)][1..] == [];
    assert Total(runs[..2]) == 3;
    plan := CellsInit(cells);
  }
}
