/**
 * The concrete syntax of BF programs: the eight command characters, bracket
 * depth, and the printer that turns a parser-shaped instruction tree back
 * into source text.  Both parsers are specified against these definitions.
 */
module Syntax {
  import opened Ir

  /** How far a character moves the bracket depth. */
  function Delta(c: char): int {
    if c == '[' then 1 else if c == ']' then -1 else 0
  }

  /** Bracket depth gained over `s[lo..hi]`: opening minus closing brackets. */
  function Net(s: string, lo: nat, hi: nat): int
    requires lo <= hi <= |s|
    decreases hi - lo
  {
    if hi == lo then 0 else Net(s, lo, hi - 1) + Delta(s[hi - 1])
  }

  lemma {:induction false} NetSplit(s: string, a: nat, b: nat, c: nat)
    requires a <= b <= c <= |s|
    ensures Net(s, a, c) == Net(s, a, b) + Net(s, b, c)
    decreases c - b
  {
    if c > b {
      NetSplit(s, a, b, c - 1);
    }
  }

  /** Net depth over a range depends only on the characters in it. */
  lemma {:induction false} NetSlice(s: string, a: nat, b: nat, t: string, c: nat)
    requires a <= b <= |s| && c + (b - a) <= |t|
    requires s[a..b] == t[c..c + (b - a)]
    ensures Net(s, a, b) == Net(t, c, c + (b - a))
    decreases b - a
  {
    if b > a {
      assert s[a..b - 1] == t[c..c + (b - 1 - a)] by {
        assert s[a..b - 1] == s[a..b][..b - 1 - a];
        assert t[c..c + (b - 1 - a)] == t[c..c + (b - a)][..b - 1 - a];
      }
      assert s[b - 1] == s[a..b][b - 1 - a] == t[c + (b - a) - 1];
      NetSlice(s, a, b - 1, t, c);
    }
  }

  /** The characters every BF implementation treats as commands; all others are comments. */
  predicate IsCommand(c: char) {
    c == '+' || c == '-' || c == '<' || c == '>' || c == ',' || c == '.' || c == '[' || c == ']'
  }

  /** The commands of `s[lo..hi]`, comments dropped. */
  function CommandsIn(s: string, lo: nat, hi: nat): (r: string)
    requires lo <= hi <= |s|
    ensures |r| <= hi - lo
    decreases hi - lo
  {
    if hi == lo then []
    else CommandsIn(s, lo, hi - 1) + (if IsCommand(s[hi - 1]) then [s[hi - 1]] else [])
  }

  function Commands(s: string): string {
    CommandsIn(s, 0, |s|)
  }

  lemma {:induction false} CommandsSplit(s: string, a: nat, b: nat, c: nat)
    requires a <= b <= c <= |s|
    ensures CommandsIn(s, a, c) == CommandsIn(s, a, b) + CommandsIn(s, b, c)
    decreases c - b
  {
    if c > b {
      CommandsSplit(s, a, b, c - 1);
    }
  }

  lemma CommandsOne(s: string, a: nat)
    requires a < |s|
    ensures CommandsIn(s, a, a + 1) == if IsCommand(s[a]) then [s[a]] else []
  {
  }

  /** A command-only string is its own command list. */
  lemma {:induction false} CommandsOfCommands(s: string, n: nat)
    requires n <= |s|
    requires forall k | 0 <= k < |s| :: IsCommand(s[k])
    ensures CommandsIn(s, 0, n) == s[..n]
    decreases n
  {
    if n > 0 {
      CommandsOfCommands(s, n - 1);
      assert s[..n] == s[..n - 1] + [s[n - 1]];
    }
  }

  /** No prefix of `s[lo..hi]` closes more brackets than it opens. */
  predicate NeverBelowZero(s: string, lo: nat, hi: nat)
    requires lo <= hi <= |s|
  {
    forall k | lo <= k <= hi :: Net(s, lo, k) >= 0
  }

  /** `s[lo..hi]` never closes more brackets than it has opened, and closes all it opens. */
  predicate Balanced(s: string, lo: nat, hi: nat)
    requires lo <= hi <= |s|
  {
    (forall k | lo <= k <= hi :: Net(s, lo, k) >= 0) && Net(s, lo, hi) == 0
  }

  /** The instructions the parser produces: one node per command, loops nested. */
  predicate Shaped(p: seq<Instr>)
    decreases p
  {
    forall k | 0 <= k < |p| :: ShapedInstr(p[k])
  }

  predicate ShapedInstr(i: Instr)
    decreases i
  {
    match i
    case Increment(amount, offset) => (amount == 1 || amount == -1) && offset == 0
    case PointerIncrement(amount) => amount == 1 || amount == -1
    case Read => true
    case Write => true
    case Loop(body) => Shaped(body)
    case Set(_, _) => false
    case MultiplyMove(_) => false
  }

  lemma ShapedAppend(p: seq<Instr>, q: seq<Instr>)
    requires Shaped(p) && Shaped(q)
    ensures Shaped(p + q)
  {
    assert forall k | 0 <= k < |p + q| :: (p + q)[k] == if k < |p| then p[k] else q[k - |p|];
  }

  /** The command a single non-loop node was parsed from. */
  function Command(i: Instr): char
    requires ShapedInstr(i) && !i.Loop?
  {
    match i
    case Increment(amount, _) => if amount == 1 then '+' else '-'
    case PointerIncrement(amount) => if amount == 1 then '>' else '<'
    case Read => ','
    case Write => '.'
  }

  /** The source text of a parser-shaped program. */
  function Print(p: seq<Instr>): string
    requires Shaped(p)
    decreases p
  {
    if p == [] then ""
    else PrintInstr(p[0]) + Print(p[1..])
  }

  function PrintInstr(i: Instr): string
    requires ShapedInstr(i)
    decreases i
  {
    match i
    case Loop(body) => "[" + Print(body) + "]"
    case Increment(_, _) => [Command(i)]
    case PointerIncrement(_) => [Command(i)]
    case Read => [Command(i)]
    case Write => [Command(i)]
    case Set(_, _) => ""
    case MultiplyMove(_) => ""
  }

  /** The printer emits nothing but commands. */
  lemma {:induction false} PrintIsCommands(p: seq<Instr>)
    requires Shaped(p)
    ensures forall k | 0 <= k < |Print(p)| :: IsCommand(Print(p)[k])
    decreases p
  {
    if p != [] {
      PrintInstrIsCommands(p[0]);
      PrintIsCommands(p[1..]);
      var h, t := PrintInstr(p[0]), Print(p[1..]);
      assert forall k | 0 <= k < |h + t| :: (h + t)[k] == if k < |h| then h[k] else t[k - |h|];
    }
  }

  lemma {:induction false} PrintInstrIsCommands(i: Instr)
    requires ShapedInstr(i)
    ensures forall k | 0 <= k < |PrintInstr(i)| :: IsCommand(PrintInstr(i)[k])
    decreases i
  {
    if i.Loop? {
      PrintIsCommands(i.body);
      var b := Print(i.body);
      assert forall k | 0 <= k < |b| :: ("[" + b + "]")[k + 1] == b[k];
    }
  }

  lemma {:induction false} PrintAppend(p: seq<Instr>, q: seq<Instr>)
    requires Shaped(p) && Shaped(q)
    ensures Shaped(p + q) && Print(p + q) == Print(p) + Print(q)
    decreases |p|
  {
    ShapedAppend(p, q);
    if p == [] {
      assert p + q == q;
    } else {
      assert (p + q)[1..] == p[1..] + q;
      PrintAppend(p[1..], q);
    }
  }

  lemma PrintSingle(i: Instr)
    requires ShapedInstr(i)
    ensures Shaped([i]) && Print([i]) == PrintInstr(i)
  {
    assert [i][1..] == [];
  }

  /** Net depth over a prefix of a concatenation: the first part's, then the second's on top. */
  lemma NetConcat(h: string, t: string, k: nat)
    requires k <= |h| + |t|
    ensures Net(h + t, 0, k) == if k <= |h| then Net(h, 0, k) else Net(h, 0, |h|) + Net(t, 0, k - |h|)
  {
    var s := h + t;
    if k <= |h| {
      assert s[0..k] == h[0..k];
      NetSlice(s, 0, k, h, 0);
    } else {
      NetSplit(s, 0, |h|, k);
      assert s[0..|h|] == h[0..|h|];
      NetSlice(s, 0, |h|, h, 0);
      assert s[|h|..k] == t[0..k - |h|];
      NetSlice(s, |h|, k, t, 0);
    }
  }

  /** Printed programs have balanced brackets. */
  lemma {:induction false} PrintBalanced(p: seq<Instr>)
    requires Shaped(p)
    ensures Balanced(Print(p), 0, |Print(p)|)
    decreases p
  {
    if p != [] {
      var h := PrintInstr(p[0]);
      var t := Print(p[1..]);
      assert Print(p) == h + t;
      PrintInstrBalanced(p[0]);
      PrintBalanced(p[1..]);
      forall k | 0 <= k <= |h + t|
        ensures Net(h + t, 0, k) >= 0
      {
        NetConcat(h, t, k);
      }
      NetConcat(h, t, |h + t|);
    }
  }

  lemma {:induction false} PrintInstrBalanced(i: Instr)
    requires ShapedInstr(i)
    ensures Balanced(PrintInstr(i), 0, |PrintInstr(i)|)
    ensures i.Loop? ==> forall k | 0 < k < |PrintInstr(i)| :: Net(PrintInstr(i), 0, k) > 0
    decreases i
  {
    if i.Loop? {
      var b := Print(i.body);
      PrintBalanced(i.body);
      var front := "[" + b;
      assert PrintInstr(i) == front + "]";
      forall k | 0 < k <= |front|
        ensures Net(front, 0, k) > 0
      {
        NetConcat("[", b, k);
      }
      forall k | 0 < k < |front + "]"|
        ensures Net(front + "]", 0, k) > 0
      {
        NetConcat(front, "]", k);
      }
      NetConcat(front, "]", |front| + 1);
      NetConcat("[", b, |front|);
    } else {
      var s := PrintInstr(i);
      assert |s| == 1 && Delta(s[0]) == 0;
      assert Net(s, 0, 1) == Net(s, 0, 0) + Delta(s[0]);
    }
  }

  /** The `]` at `p` is the first bracket that closes more than has been opened. */
  ghost predicate FirstUnmatchedClose(s: string, p: nat) {
    && p < |s| && s[p] == ']'
    && Net(s, 0, p) == 0
    && (forall k | 0 <= k <= p :: Net(s, 0, k) >= 0)
  }

  /** The `[` at `p` is opened at depth zero and never closed: the outermost unclosed bracket. */
  ghost predicate OutermostUnclosed(s: string, p: nat) {
    && p < |s| && s[p] == '['
    && Net(s, 0, p) == 0
    && (forall k | 0 <= k <= p :: Net(s, 0, k) >= 0)
    && (forall k | p < k <= |s| :: Net(s, p, k) > 0)
  }

  /** The `[` at `p` is never closed, and everything after it is balanced: the innermost unclosed bracket. */
  ghost predicate InnermostUnclosed(s: string, p: nat) {
    && p < |s| && s[p] == '['
    && (forall k | 0 <= k <= |s| :: Net(s, 0, k) >= 0)
    && Balanced(s, p + 1, |s|)
  }

  /** Why a source text does not parse, and the index of the offending bracket. */
  datatype ParseError = UnmatchedOpen(position: nat) | UnmatchedClose(position: nat)

  /** The node a non-bracket character parses to; comments parse to nothing. */
  function NodeOf(c: char): (r: seq<Instr>)
    requires c != '[' && c != ']'
    ensures Shaped(r)
    ensures IsCommand(c) <==> |r| == 1
    ensures IsCommand(c) ==> Print(r) == [c]
    ensures !IsCommand(c) ==> r == []
  {
    var r := match c
      case '+' => [Increment(1, 0)]
      case '-' => [Increment(-1, 0)]
      case '>' => [PointerIncrement(1)]
      case '<' => [PointerIncrement(-1)]
      case ',' => [Read]
      case '.' => [Write]
      case _ => [];
    if r != [] then PrintSingle(r[0]); r else r
  }

  /** Every non-loop parser node is what its own command parses to. */
  lemma NodeOfCommand(i: Instr)
    requires ShapedInstr(i) && !i.Loop?
    ensures NodeOf(Command(i)) == [i]
  {
  }
}
