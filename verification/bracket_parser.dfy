/**
 * The recursive-descent parser of the C++ front ends (`findMatchingClose`,
 * `parseSourceBetween`, `parseSource`): every `[` is matched by scanning
 * forward for the bracket that brings the depth back to zero, and the text
 * in between is parsed as the loop body.  The process exit on an unmatched
 * bracket becomes a `Failure`.
 */
module BracketParser {
  import opened Wrappers
  import opened Ir
  import opened Syntax

  /**
   * The index of the `]` matching the `[` at `open`, or -1: the first index at
   * which the bracket depth counted from `open` returns to zero.
   */
  function FindMatchingClose(s: string, open: nat): (r: int)
    requires open < |s| && s[open] == '['
    ensures r == -1 || (open < r < |s| && s[r] == ']' && Net(s, open, r + 1) == 0)
    ensures r != -1 ==> forall k | open < k <= r :: Net(s, open, k) > 0
    ensures r == -1 <==> forall k | open < k <= |s| :: Net(s, open, k) > 0
  {
    ScanClose(s, open, open, 0)
  }

  /** The scanning loop of `FindMatchingClose`, at index `i` with depth `count`. */
  function ScanClose(s: string, open: nat, i: nat, count: int): (r: int)
    requires open <= i <= |s| && open < |s| && s[open] == '['
    requires count == Net(s, open, i)
    requires forall k | open < k <= i :: Net(s, open, k) > 0
    ensures r == -1 || (open < r < |s| && s[r] == ']' && Net(s, open, r + 1) == 0)
    ensures r != -1 ==> forall k | open < k <= r :: Net(s, open, k) > 0
    ensures r == -1 <==> forall k | open < k <= |s| :: Net(s, open, k) > 0
    decreases |s| - i
  {
    if i == |s| then -1
    else
      var next := count + Delta(s[i]);
      if next == 0 then i else ScanClose(s, open, i + 1, next)
  }

  /** The matching close is the only index that satisfies `FindMatchingClose`'s contract. */
  lemma MatchingCloseUnique(s: string, open: nat, close: nat)
    requires open < close < |s| && s[open] == '['
    requires Net(s, open, close + 1) == 0
    requires forall k | open < k <= close :: Net(s, open, k) > 0
    ensures FindMatchingClose(s, open) == close
  {
    var r := FindMatchingClose(s, open);
  }

  /** Prepend the instructions already parsed at this level to a parse result. */
  function Prepend(acc: seq<Instr>, r: Result<seq<Instr>, ParseError>): Result<seq<Instr>, ParseError> {
    match r
    case Success(b) => Success(acc + b)
    case Failure(e) => Failure(e)
  }

  /**
   * The `while (I < To)` loop of `parseSourceBetween` from index `i`, with the
   * instructions `program` built so far.  A close found beyond `hi` ends the
   * loop, as in the source.
   */
  function ParseFrom(s: string, i: nat, hi: nat, program: seq<Instr>): Result<seq<Instr>, ParseError>
    requires i <= |s| && hi <= |s|
    decreases |s| - i
  {
    if i >= hi then Success(program)
    else if s[i] == '[' then
      var close := FindMatchingClose(s, i);
      if close == -1 then Failure(UnmatchedOpen(i))
      else
        match ParseFrom(s, i + 1, close, [])
        case Failure(e) => Failure(e)
        case Success(body) => ParseFrom(s, close + 1, hi, program + [Loop(body)])
    else if s[i] == ']' then Failure(UnmatchedClose(i))
    else ParseFrom(s, i + 1, hi, program + NodeOf(s[i]))
  }

  /** `parseSourceBetween`: the instructions of `s[lo..hi]`. */
  function ParseBetween(s: string, lo: nat, hi: nat): Result<seq<Instr>, ParseError>
    requires lo <= hi <= |s|
  {
    ParseFrom(s, lo, hi, [])
  }

  /** `parseSource`: the whole text. */
  function ParseSource(s: string): Result<seq<Instr>, ParseError> {
    ParseBetween(s, 0, |s|)
  }

  /** The instructions already built only ever end up in front of the result. */
  lemma {:induction false} ParseFromPrepends(s: string, i: nat, hi: nat, program: seq<Instr>)
    requires i <= |s| && hi <= |s|
    ensures ParseFrom(s, i, hi, program) == Prepend(program, ParseFrom(s, i, hi, []))
    decreases |s| - i
  {
    if i >= hi {
      assert program + [] == program;
    } else {
      if s[i] == '[' {
        var close := FindMatchingClose(s, i);
        if close != -1 {
          match ParseFrom(s, i + 1, close, [])
          case Failure(e) =>
          case Success(body) =>
            assert [] + [Loop(body)] == [Loop(body)];
            ParseFromPrepends(s, close + 1, hi, program + [Loop(body)]);
            ParseFromPrepends(s, close + 1, hi, [Loop(body)]);
            PrependAssociates(program, [Loop(body)], ParseFrom(s, close + 1, hi, []));
        }
      } else if s[i] != ']' {
        assert [] + NodeOf(s[i]) == NodeOf(s[i]);
        ParseFromPrepends(s, i + 1, hi, program + NodeOf(s[i]));
        ParseFromPrepends(s, i + 1, hi, NodeOf(s[i]));
        PrependAssociates(program, NodeOf(s[i]), ParseFrom(s, i + 1, hi, []));
      }
    }
  }

  lemma PrependAssociates(a: seq<Instr>, b: seq<Instr>, r: Result<seq<Instr>, ParseError>)
    ensures Prepend(a + b, r) == Prepend(a, Prepend(b, r))
  {
    if r.Success? {
      assert a + b + r.value == a + (b + r.value);
    }
  }

  /** The body between a `[` and its matching `]` is itself balanced. */
  lemma BodyBalanced(s: string, open: nat, close: nat)
    requires open < close < |s| && s[open] == '['
    requires Net(s, open, close + 1) == 0
    requires forall k | open < k <= close :: Net(s, open, k) > 0
    ensures Balanced(s, open + 1, close)
  {
    var first := open + 1;
    forall k | first <= k <= close
      ensures Net(s, first, k) >= 0
    {
      NetSplit(s, open, first, k);
      assert Net(s, open, k) > 0;
    }
    assert Net(s, open, close + 1) == Net(s, open, close) + Delta(s[close]);
    NetSplit(s, open, open + 1, close);
  }

  /** What follows a balanced loop inside a balanced range is balanced again. */
  lemma RestBalanced(s: string, lo: nat, mid: nat, hi: nat)
    requires lo <= mid <= hi <= |s|
    requires Balanced(s, lo, hi) && Net(s, lo, mid) == 0
    ensures Balanced(s, mid, hi)
  {
    forall k | mid <= k <= hi
      ensures Net(s, mid, k) == Net(s, lo, k)
    {
      NetSplit(s, lo, mid, k);
    }
  }

  /** One step of the loop at a `[` whose body parses. */
  lemma ParseLoopStep(s: string, i: nat, hi: nat, close: nat, body: seq<Instr>)
    requires i < hi <= |s| && s[i] == '['
    requires FindMatchingClose(s, i) == close
    requires ParseBetween(s, i + 1, close) == Success(body)
    ensures ParseBetween(s, i, hi) == Prepend([Loop(body)], ParseFrom(s, close + 1, hi, []))
  {
    assert [] + [Loop(body)] == [Loop(body)];
    ParseFromPrepends(s, close + 1, hi, [Loop(body)]);
  }

  /** The loop stops at a `[` that has no match. */
  lemma ParseOpenStep(s: string, i: nat, hi: nat)
    requires i < hi <= |s| && s[i] == '[' && FindMatchingClose(s, i) == -1
    ensures ParseBetween(s, i, hi) == Failure(UnmatchedOpen(i))
  {
  }

  /** The loop stops at any `]` it reaches. */
  lemma ParseCloseStep(s: string, i: nat, hi: nat)
    requires i < hi <= |s| && s[i] == ']'
    ensures ParseBetween(s, i, hi) == Failure(UnmatchedClose(i))
  {
  }

  /** One step of the loop at any other character. */
  lemma ParseNodeStep(s: string, i: nat, hi: nat)
    requires i < hi <= |s| && s[i] != '[' && s[i] != ']'
    ensures ParseBetween(s, i, hi) == Prepend(NodeOf(s[i]), ParseBetween(s, i + 1, hi))
  {
    assert [] + NodeOf(s[i]) == NodeOf(s[i]);
    ParseFromPrepends(s, i + 1, hi, NodeOf(s[i]));
  }

  /** The printed text of a loop followed by more instructions, against the source's commands. */
  lemma PrintLoopThen(s: string, lo: nat, close: nat, hi: nat, body: seq<Instr>, rest: seq<Instr>)
    requires lo < close < hi <= |s| && s[lo] == '[' && s[close] == ']'
    requires Shaped(body) && Print(body) == CommandsIn(s, lo + 1, close)
    requires Shaped(rest) && Print(rest) == CommandsIn(s, close + 1, hi)
    ensures Shaped([Loop(body)] + rest)
    ensures Print([Loop(body)] + rest) == CommandsIn(s, lo, hi)
  {
    var inner, after := CommandsIn(s, lo + 1, close), CommandsIn(s, close + 1, hi);
    CommandsAroundLoop(s, lo, close, hi);
    BracketsAround(inner, after);
    PrintSingle(Loop(body));
    PrintAppend([Loop(body)], rest);
  }

  /** The commands of a range that starts with a loop: the brackets around the body's commands, then the rest's. */
  lemma CommandsAroundLoop(s: string, lo: nat, close: nat, hi: nat)
    requires lo < close < hi <= |s| && s[lo] == '[' && s[close] == ']'
    ensures CommandsIn(s, lo, hi) == "[" + (CommandsIn(s, lo + 1, close) + ("]" + CommandsIn(s, close + 1, hi)))
  {
    CommandsFirst(s, lo, hi);
    CommandsSplit(s, lo + 1, close, hi);
    CommandsFirst(s, close, hi);
  }

  /** A range that starts with a command: that command, then the commands of the rest. */
  lemma CommandsFirst(s: string, lo: nat, hi: nat)
    requires lo < hi <= |s| && IsCommand(s[lo])
    ensures CommandsIn(s, lo, hi) == [s[lo]] + CommandsIn(s, lo + 1, hi)
  {
    CommandsSplit(s, lo, lo + 1, hi);
    CommandsOne(s, lo);
  }

  lemma BracketsAround(inner: string, after: string)
    ensures "[" + (inner + ("]" + after)) == "[" + inner + "]" + after
  {
  }

  lemma PrintNodeThen(s: string, lo: nat, hi: nat, rest: seq<Instr>)
    requires lo < hi <= |s| && s[lo] != '[' && s[lo] != ']'
    requires Shaped(rest) && Print(rest) == CommandsIn(s, lo + 1, hi)
    ensures Shaped(NodeOf(s[lo]) + rest)
    ensures Print(NodeOf(s[lo]) + rest) == CommandsIn(s, lo, hi)
  {
    var node := NodeOf(s[lo]);
    CommandsSplit(s, lo, lo + 1, hi);
    CommandsOne(s, lo);
    assert Print(node) == CommandsIn(s, lo, lo + 1);
    PrintAppend(node, rest);
  }

  /**
   * A balanced range parses, to a parser-shaped program that prints back as
   * exactly the commands of the range.
   */
  lemma {:induction false} BalancedParses(s: string, lo: nat, hi: nat)
    requires lo <= hi <= |s| && Balanced(s, lo, hi)
    ensures ParseBetween(s, lo, hi).Success?
    ensures Shaped(ParseBetween(s, lo, hi).value)
    ensures Print(ParseBetween(s, lo, hi).value) == CommandsIn(s, lo, hi)
    decreases |s| - lo, 1
  {
    if lo < hi {
      BalancedStart(s, lo, hi);
      if s[lo] == '[' {
        BalancedLoopParses(s, lo, hi);
      } else {
        BalancedNodeParses(s, lo, hi);
      }
    }
  }

  /** `BalancedParses` for a range that starts with a loop. */
  lemma {:induction false} BalancedLoopParses(s: string, lo: nat, hi: nat)
    requires lo < hi <= |s| && Balanced(s, lo, hi) && s[lo] == '['
    ensures ParseBetween(s, lo, hi).Success?
    ensures Shaped(ParseBetween(s, lo, hi).value)
    ensures Print(ParseBetween(s, lo, hi).value) == CommandsIn(s, lo, hi)
    decreases |s| - lo, 0
  {
    BalancedStart(s, lo, hi);
    var close := FindMatchingClose(s, lo);
    BalancedParses(s, lo + 1, close);
    var after: nat := close + 1;
    BalancedParses(s, after, hi);
    var body, rest := ParseBetween(s, lo + 1, close).value, ParseBetween(s, after, hi).value;
    LoopParses(s, lo, close, after, hi, body, rest);
  }

  /** `BalancedParses` for a range that starts with a command other than a bracket. */
  lemma {:induction false} BalancedNodeParses(s: string, lo: nat, hi: nat)
    requires lo < hi <= |s| && Balanced(s, lo, hi) && s[lo] != '[' && s[lo] != ']'
    ensures ParseBetween(s, lo, hi).Success?
    ensures Shaped(ParseBetween(s, lo, hi).value)
    ensures Print(ParseBetween(s, lo, hi).value) == CommandsIn(s, lo, hi)
    decreases |s| - lo, 0
  {
    BalancedStart(s, lo, hi);
    BalancedParses(s, lo + 1, hi);
    NodeParses(s, lo, hi, ParseBetween(s, lo + 1, hi).value);
  }

  /** A loop whose body and rest parse and print back parses and prints back as a whole. */
  lemma LoopParses(s: string, lo: nat, close: nat, after: nat, hi: nat, body: seq<Instr>, rest: seq<Instr>)
    requires lo < close < hi <= |s| && after == close + 1 && s[lo] == '[' && FindMatchingClose(s, lo) == close
    requires ParseBetween(s, lo + 1, close) == Success(body)
    requires Shaped(body) && Print(body) == CommandsIn(s, lo + 1, close)
    requires ParseBetween(s, after, hi) == Success(rest)
    requires Shaped(rest) && Print(rest) == CommandsIn(s, after, hi)
    ensures ParseBetween(s, lo, hi) == Success([Loop(body)] + rest)
    ensures Shaped([Loop(body)] + rest) && Print([Loop(body)] + rest) == CommandsIn(s, lo, hi)
  {
    ParseLoopStep(s, lo, hi, close, body);
    PrintLoopThen(s, lo, close, hi, body, rest);
  }

  /** A command other than a bracket, followed by a rest that parses and prints back, does the same. */
  lemma NodeParses(s: string, lo: nat, hi: nat, rest: seq<Instr>)
    requires lo < hi <= |s| && s[lo] != '[' && s[lo] != ']'
    requires ParseBetween(s, lo + 1, hi) == Success(rest)
    requires Shaped(rest) && Print(rest) == CommandsIn(s, lo + 1, hi)
    ensures ParseBetween(s, lo, hi) == Success(NodeOf(s[lo]) + rest)
    ensures Shaped(NodeOf(s[lo]) + rest) && Print(NodeOf(s[lo]) + rest) == CommandsIn(s, lo, hi)
  {
    ParseNodeStep(s, lo, hi);
    PrintNodeThen(s, lo, hi, rest);
  }

  /**
   * A non-empty balanced range starts with no `]`; a `[` there is matched
   * inside the range, by a balanced body, and a balanced rest follows.
   */
  lemma BalancedStart(s: string, lo: nat, hi: nat)
    requires lo < hi <= |s| && Balanced(s, lo, hi)
    ensures s[lo] != ']'
    ensures s[lo] == '[' ==> lo < FindMatchingClose(s, lo) < hi
    ensures s[lo] == '[' ==> Balanced(s, lo + 1, FindMatchingClose(s, lo))
    ensures s[lo] == '[' ==> Balanced(s, FindMatchingClose(s, lo) + 1, hi)
    ensures s[lo] != '[' ==> Balanced(s, lo + 1, hi)
  {
    NetSplit(s, lo, lo + 1, hi);
    assert Net(s, lo, lo + 1) == Delta(s[lo]);
    if s[lo] == '[' {
      var close := FindMatchingClose(s, lo);
      assert close != -1 by {
        assert Net(s, lo, hi) == 0;
      }
      assert close < hi;
      BodyBalanced(s, lo, close);
      RestBalanced(s, lo, close + 1, hi);
    } else {
      RestBalanced(s, lo, lo + 1, hi);
    }
  }

  /** A range that parses to the end of the text is balanced. */
  lemma {:induction false} ParsedIsBalanced(s: string, i: nat)
    requires i <= |s| && ParseBetween(s, i, |s|).Success?
    ensures Balanced(s, i, |s|)
    decreases |s| - i, 1
  {
    if i < |s| {
      if s[i] == '[' {
        ParsedLoopIsBalanced(s, i);
      } else if s[i] == ']' {
        assert false;
      } else {
        ParsedNodeIsBalanced(s, i);
      }
    }
  }

  /** `ParsedIsBalanced` for a text that starts with a loop. */
  lemma {:induction false} ParsedLoopIsBalanced(s: string, i: nat)
    requires i < |s| && s[i] == '[' && ParseBetween(s, i, |s|).Success?
    ensures Balanced(s, i, |s|)
    decreases |s| - i, 0
  {
    var close := FindMatchingClose(s, i);
    assert close != -1;
    assert ParseBetween(s, i + 1, close).Success?;
    ParseLoopStep(s, i, |s|, close, ParseBetween(s, i + 1, close).value);
    var after: nat := close + 1;
    ParsedIsBalanced(s, after);
    forall k | i <= k <= |s|
      ensures Net(s, i, k) >= 0
    {
      if k > after {
        NetSplit(s, i, after, k);
      }
    }
    NetSplit(s, i, after, |s|);
  }

  /** `ParsedIsBalanced` for a text that starts with a command other than a bracket. */
  lemma {:induction false} ParsedNodeIsBalanced(s: string, i: nat)
    requires i < |s| && s[i] != '[' && s[i] != ']' && ParseBetween(s, i, |s|).Success?
    ensures Balanced(s, i, |s|)
    decreases |s| - i, 0
  {
    ParseNodeStep(s, i, |s|);
    var next: nat := i + 1;
    ParsedIsBalanced(s, next);
    forall k | next <= k <= |s|
      ensures Net(s, i, k) == Net(s, next, k)
    {
      NetSplit(s, i, next, k);
    }
  }

  /**
   * Where a parse of `s[i..]` may fail: at a bracket reached at depth zero,
   * with the depth never negative before it.  An unmatched `]` is one that
   * would take the depth below zero; an unmatched `[` is never closed.
   */
  ghost predicate ErrorFits(s: string, i: nat, e: ParseError)
    requires i <= |s|
  {
    && i <= e.position < |s|
    && Net(s, i, e.position) == 0
    && (forall k | i <= k <= e.position :: Net(s, i, k) >= 0)
    && (e.UnmatchedClose? ==> s[e.position] == ']')
    && (e.UnmatchedOpen? ==> s[e.position] == '[' && forall k | e.position < k <= |s| :: Net(s, e.position, k) > 0)
  }

  lemma ErrorFitsShift(s: string, i: nat, j: nat, e: ParseError)
    requires i <= j <= |s| && ErrorFits(s, j, e)
    requires Net(s, i, j) == 0 && forall k | i <= k <= j :: Net(s, i, k) >= 0
    ensures ErrorFits(s, i, e)
  {
    forall k | j <= k <= e.position
      ensures Net(s, i, k) == Net(s, j, k)
    {
      NetSplit(s, i, j, k);
    }
  }

  /** The failure of a parse to the end of the text fits `ErrorFits`. */
  lemma {:induction false} ParseErrorAt(s: string, i: nat)
    requires i <= |s| && ParseBetween(s, i, |s|).Failure?
    ensures ErrorFits(s, i, ParseBetween(s, i, |s|).error)
    decreases |s| - i
  {
    if i < |s| {
      if s[i] == '[' {
        var close := FindMatchingClose(s, i);
        if close == -1 {
          ParseOpenStep(s, i, |s|);
        } else {
          LoopErrorStep(s, i, close);
          ParseErrorAt(s, close + 1);
          ErrorFitsShift(s, i, close + 1, ParseBetween(s, close + 1, |s|).error);
        }
      } else if s[i] == ']' {
        ParseCloseStep(s, i, |s|);
      } else {
        NodeErrorStep(s, i);
        ParseErrorAt(s, i + 1);
        ErrorFitsShift(s, i, i + 1, ParseBetween(s, i + 1, |s|).error);
      }
    }
  }

  /** A failure after a complete loop is the failure of the text after the loop, which starts at depth zero. */
  lemma LoopErrorStep(s: string, i: nat, close: nat)
    requires i < |s| && s[i] == '[' && FindMatchingClose(s, i) == close
    requires ParseBetween(s, i, |s|).Failure?
    ensures close < |s|
    ensures ParseBetween(s, close + 1, |s|).Failure?
    ensures ParseBetween(s, i, |s|).error == ParseBetween(s, close + 1, |s|).error
    ensures Net(s, i, close + 1) == 0 && forall k | i <= k <= close + 1 :: Net(s, i, k) >= 0
  {
    BodyBalanced(s, i, close);
    BalancedParses(s, i + 1, close);
    ParseLoopStep(s, i, |s|, close, ParseBetween(s, i + 1, close).value);
  }

  /** A failure after a non-bracket character is the failure of the text after it. */
  lemma NodeErrorStep(s: string, i: nat)
    requires i < |s| && s[i] != '[' && s[i] != ']'
    requires ParseBetween(s, i, |s|).Failure?
    ensures ParseBetween(s, i + 1, |s|).Failure?
    ensures ParseBetween(s, i, |s|).error == ParseBetween(s, i + 1, |s|).error
    ensures Net(s, i, i + 1) == 0 && forall k | i <= k <= i + 1 :: Net(s, i, k) >= 0
  {
    ParseNodeStep(s, i, |s|);
    assert Net(s, i, i + 1) == Net(s, i, i) + Delta(s[i]);
  }

  /** A slice of a slice. */
  lemma SliceOfSlice(s: string, i: nat, end: nat, t: string, a: nat, b: nat)
    requires i <= end <= |s| && s[i..end] == t && a <= b <= |t|
    ensures s[i + a..i + b] == t[a..b]
  {
    forall j | 0 <= j < b - a
      ensures s[i + a..i + b][j] == t[a..b][j]
    {
      assert t[a + j] == s[i..end][a + j];
    }
  }

  /** The `[` of a printed loop, found in a text, is matched by the loop's own `]`. */
  lemma PrintedLoopCloses(s: string, i: nat, b: seq<Instr>, close: nat, after: nat)
    requires Shaped(b)
    requires after == i + |PrintInstr(Loop(b))| <= |s| && close + 1 == after
    requires s[i..after] == PrintInstr(Loop(b))
    ensures s[i] == '['
    ensures FindMatchingClose(s, i) == close
  {
    var h := PrintInstr(Loop(b));
    assert h == "[" + Print(b) + "]";
    assert s[i] == h[0] && s[close] == h[|h| - 1] by {
      SliceOfSlice(s, i, after, h, 0, 1);
      SliceOfSlice(s, i, after, h, |h| - 1, |h|);
    }
    PrintInstrBalanced(Loop(b));
    NetCopy(s, i, h, |h|);
    forall k | i < k <= close
      ensures Net(s, i, k) > 0
    {
      NetCopy(s, i, h, k - i);
    }
    MatchingCloseUnique(s, i, close);
  }

  /** Net depth over a copy of `h` inside `s` is that over `h`. */
  lemma NetCopy(s: string, i: nat, h: string, k: nat)
    requires i + |h| <= |s| && s[i..i + |h|] == h && k <= |h|
    ensures Net(s, i, i + k) == Net(h, 0, k)
  {
    SliceOfSlice(s, i, i + |h|, h, 0, k);
    NetSlice(s, i, i + k, h, 0);
  }

  /** The body of a printed loop, found in a text, sits between its brackets. */
  lemma PrintedLoopBody(s: string, i: nat, b: seq<Instr>, close: nat, after: nat)
    requires Shaped(b)
    requires after == i + |PrintInstr(Loop(b))| <= |s| && close + 1 == after
    requires s[i..after] == PrintInstr(Loop(b))
    ensures close == i + 1 + |Print(b)|
    ensures s[i + 1..close] == Print(b)
  {
    var h := PrintInstr(Loop(b));
    assert h == "[" + Print(b) + "]";
    assert h[1..|h| - 1] == Print(b);
    SliceOfSlice(s, i, after, h, 1, |h| - 1);
  }

  /** Where the first instruction's text and the rest's text sit in `s`. */
  lemma PrintedSlices(s: string, i: nat, p: seq<Instr>, mid: nat, end: nat)
    requires Shaped(p) && p != [] && end == i + |Print(p)| <= |s|
    requires s[i..end] == Print(p) && mid == i + |PrintInstr(p[0])|
    ensures Print(p) == PrintInstr(p[0]) + Print(p[1..]) && mid <= end
    ensures s[i..mid] == PrintInstr(p[0])
    ensures s[mid..end] == Print(p[1..])
  {
    var whole := Print(p);
    var h := PrintInstr(p[0]);
    SliceOfSlice(s, i, end, whole, 0, |h|);
    assert whole[0..|h|] == h;
    SliceOfSlice(s, i, end, whole, |h|, |whole|);
    assert whole[|h|..|whole|] == Print(p[1..]);
  }

  /** Assembling the parse of a program that starts with a loop. */
  lemma LoopThenParses(s: string, i: nat, close: nat, end: nat, p: seq<Instr>)
    requires p != [] && p[0].Loop?
    requires i < close < end <= |s| && s[i] == '['
    requires FindMatchingClose(s, i) == close
    requires ParseBetween(s, i + 1, close) == Success(p[0].body)
    requires ParseBetween(s, close + 1, end) == Success(p[1..])
    ensures ParseBetween(s, i, end) == Success(p)
  {
    ParseLoopStep(s, i, end, close, p[0].body);
    assert [p[0]] + p[1..] == p;
  }

  /** Assembling the parse of a program that starts with a non-loop node. */
  lemma NodeThenParses(s: string, i: nat, end: nat, p: seq<Instr>)
    requires p != [] && ShapedInstr(p[0]) && !p[0].Loop?
    requires i < end <= |s| && s[i] == Command(p[0])
    requires ParseBetween(s, i + 1, end) == Success(p[1..])
    ensures ParseBetween(s, i, end) == Success(p)
  {
    NodeOfCommand(p[0]);
    ParseNodeStep(s, i, end);
    assert [p[0]] + p[1..] == p;
  }

  /** The printed text of a shaped program, found anywhere in a text, parses back to the program. */
  lemma {:induction false} ParsePrinted(s: string, i: nat, p: seq<Instr>, end: nat)
    requires Shaped(p) && end == i + |Print(p)| <= |s|
    requires s[i..end] == Print(p)
    ensures ParseBetween(s, i, end) == Success(p)
    decreases p, 1
  {
    if p != [] {
      if p[0].Loop? {
        ParsePrintedLoop(s, i, p, end);
      } else {
        ParsePrintedNode(s, i, p, end);
      }
    }
  }

  lemma {:induction false} ParsePrintedLoop(s: string, i: nat, p: seq<Instr>, end: nat)
    requires Shaped(p) && p != [] && p[0].Loop? && end == i + |Print(p)| <= |s|
    requires s[i..end] == Print(p)
    ensures ParseBetween(s, i, end) == Success(p)
    decreases p, 0
  {
    var body, rest := p[0].body, p[1..];
    var close := i + 1 + |Print(body)|;
    assert Shaped(body) && Shaped(rest) by {
      assert ShapedInstr(p[0]);
      assert forall k | 0 <= k < |rest| :: rest[k] == p[k + 1];
    }
    LoopPieces(s, i, p, body, rest, close, end);
    ParsePrinted(s, i + 1, body, close);
    ParsePrinted(s, close + 1, rest, end);
    LoopThenParses(s, i, close, end, p);
  }

  /** Where the brackets, the body and the rest of a printed loop sit in `s`. */
  lemma LoopPieces(s: string, i: nat, p: seq<Instr>, body: seq<Instr>, rest: seq<Instr>, close: nat, end: nat)
    requires Shaped(p) && p != [] && p[0].Loop? && end == i + |Print(p)| <= |s|
    requires s[i..end] == Print(p)
    requires body == p[0].body && rest == p[1..] && Shaped(body) && Shaped(rest)
    requires close == i + 1 + |Print(body)|
    ensures close + 1 + |Print(rest)| == end
    ensures s[i] == '[' && FindMatchingClose(s, i) == close
    ensures s[i + 1..close] == Print(body)
    ensures s[close + 1..end] == Print(rest)
  {
    var after := i + |PrintInstr(p[0])|;
    PrintedSlices(s, i, p, after, end);
    assert p[0] == Loop(body);
    assert PrintInstr(Loop(body)) == "[" + Print(body) + "]";
    PrintedLoopBody(s, i, body, close, after);
    PrintedLoopCloses(s, i, body, close, after);
  }

  lemma {:induction false} ParsePrintedNode(s: string, i: nat, p: seq<Instr>, end: nat)
    requires Shaped(p) && p != [] && !p[0].Loop? && end == i + |Print(p)| <= |s|
    requires s[i..end] == Print(p)
    ensures ParseBetween(s, i, end) == Success(p)
    decreases p, 0
  {
    var h := PrintInstr(p[0]);
    assert |h| == 1;
    var next := i + 1;
    PrintedSlices(s, i, p, next, end);
    assert s[i] == Command(p[0]) by {
      SliceOfSlice(s, i, next, h, 0, 1);
    }
    ParsePrinted(s, next, p[1..], end);
    NodeThenParses(s, i, end, p);
  }

  /**
   * `parseSource` succeeds exactly on texts whose brackets balance, and then
   * returns a tree that prints back as the text's commands; otherwise it
   * reports the bracket described by `ErrorFits`.
   */
  lemma ParseSourceSpec(s: string)
    ensures ParseSource(s).Success? <==> Balanced(s, 0, |s|)
    ensures ParseSource(s).Success? ==>
      Shaped(ParseSource(s).value) && Print(ParseSource(s).value) == Commands(s)
    ensures ParseSource(s).Failure? ==> ErrorFits(s, 0, ParseSource(s).error)
    ensures ParseSource(s).Failure? && ParseSource(s).error.UnmatchedClose? ==>
      FirstUnmatchedClose(s, ParseSource(s).error.position)
    ensures ParseSource(s).Failure? && ParseSource(s).error.UnmatchedOpen? ==>
      OutermostUnclosed(s, ParseSource(s).error.position)
  {
    if Balanced(s, 0, |s|) {
      BalancedParses(s, 0, |s|);
    }
    if ParseSource(s).Success? {
      ParsedIsBalanced(s, 0);
    } else {
      ParseErrorAt(s, 0);
    }
  }

  /** At most one error fits a text: the reported bracket is the first one that cannot be matched. */
  lemma ErrorUnique(s: string, e1: ParseError, e2: ParseError)
    requires ErrorFits(s, 0, e1) && ErrorFits(s, 0, e2)
    ensures e1 == e2
  {
    var p1, p2 := e1.position, e2.position;
    assert Net(s, 0, p1 + 1) == Delta(s[p1]);
    assert Net(s, 0, p2 + 1) == Delta(s[p2]);
    var first, last := if p1 < p2 then p1 else p2, if p1 < p2 then p2 else p1;
    NetSplit(s, 0, first, last);
    NetSplit(s, 0, first, first + 1);
  }

  /** Parsing a printed program gives the program back. */
  lemma RoundTrip(p: seq<Instr>)
    requires Shaped(p)
    ensures ParseSource(Print(p)) == Success(p)
  {
    var s := Print(p);
    assert s[0..|s|] == s;
    ParsePrinted(s, 0, p, |s|);
  }

  /** Distinct parser-shaped programs print differently. */
  lemma PrintInjective(p: seq<Instr>, q: seq<Instr>)
    requires Shaped(p) && Shaped(q) && Print(p) == Print(q)
    ensures p == q
  {
    RoundTrip(p);
    RoundTrip(q);
  }

  /** `.[,+]-` parses to a write, a loop that reads and increments, and a decrement. */
  lemma ParseNestedExample()
    ensures ParseSource(".[,+]-") == Success([Write, Loop([Read, Increment(1, 0)]), Increment(-1, 0)])
  {
    var p := [Write, Loop([Read, Increment(1, 0)]), Increment(-1, 0)];
    assert Print([Read, Increment(1, 0)]) == ",+";
    assert Print(p) == ".[,+]-";
    RoundTrip(p);
  }

  /** Characters that are not commands produce nothing. */
  lemma ParseCommentExample()
    ensures ParseSource("foo! ") == Success([])
  {
    var s := "foo! ";
    assert s[4] == ' ' && NodeOf(' ') == [] && NodeOf('!') == [];
    assert s[1] == 'o' && NodeOf('o') == [] && NodeOf('f') == [];
    assert ParseFrom(s, 5, 5, []) == Success([]);
    assert [] + NodeOf(s[4]) == [];
    assert ParseFrom(s, 4, 5, []) == Success([]);
    assert ParseFrom(s, 3, 5, []) == Success([]);
    assert ParseFrom(s, 2, 5, []) == Success([]);
    assert ParseFrom(s, 1, 5, []) == Success([]);
  }

  /** A lone `[` is unmatched at 0, and a `]` with nothing open is reported where it stands. */
  lemma ParseUnbalancedExamples()
    ensures ParseSource("[") == Failure(UnmatchedOpen(0))
    ensures ParseSource("]") == Failure(UnmatchedClose(0))
    ensures ParseSource("][") == Failure(UnmatchedClose(0))
    ensures ParseSource("[][") == Failure(UnmatchedOpen(2))
  {
    assert Net("[", 0, 1) == 1;
    EmptyLoopThenOpen();
  }

  /** In `[][` the first bracket closes at 1 and the last one never closes. */
  lemma EmptyLoopThenOpen()
    ensures ParseSource("[][") == Failure(UnmatchedOpen(2))
  {
    var s := "[][";
    assert Net(s, 0, 1) == 1 && Net(s, 0, 2) == 0;
    MatchingCloseUnique(s, 0, 1);
    assert Net(s, 2, 3) == 1;
    assert FindMatchingClose(s, 2) == -1;
  }
}
