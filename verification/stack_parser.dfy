/**
 * The parser of the Rust compiler (`parse` in src/bfir.rs): one left-to-right
 * pass that keeps, for every open loop, the instructions of the enclosing
 * level and the index of its `[`.  An unmatched `]` stops the pass at once; an
 * unclosed `[` is reported at the innermost one.
 */
module StackParser {
  import opened Wrappers
  import opened Ir
  import opened Syntax
  import BracketParser

  /** An open loop: the instructions of the enclosing level, and where the `[` is. */
  datatype Frame = Frame(program: seq<Instr>, open: nat)

  predicate FramesShaped(stack: seq<Frame>) {
    forall j | 0 <= j < |stack| :: Shaped(stack[j].program)
  }

  /** The commands the open frames account for: each level's text followed by its `[`. */
  function StackText(stack: seq<Frame>): string
    requires FramesShaped(stack)
  {
    if stack == [] then ""
    else StackText(stack[..|stack| - 1]) + Print(stack[|stack| - 1].program) + "["
  }

  /** The state the `for` loop keeps after reading `s[..index]`. */
  ghost predicate Scanned(s: string, index: nat, stack: seq<Frame>, instructions: seq<Instr>)
  {
    && OpenBrackets(s, index, stack)
    && FramesShaped(stack) && Shaped(instructions)
    && CommandsIn(s, 0, index) == StackText(stack) + Print(instructions)
  }

  /**
   * The bracket half of the loop's state: no prefix closes more than it
   * opens, one frame per open bracket, and frame `j` is the `[` that opened
   * nesting level `j` and is still open.
   */
  ghost predicate OpenBrackets(s: string, index: nat, stack: seq<Frame>)
  {
    && index <= |s|
    && (forall k | 0 <= k <= index :: Net(s, 0, k) >= 0)
    && |stack| == Net(s, 0, index)
    && (forall j | 0 <= j < |stack| ::
          stack[j].open < index && s[stack[j].open] == '[' && Net(s, 0, stack[j].open) == j)
    && (forall j, k | 0 <= j < |stack| && stack[j].open < k <= index :: Net(s, 0, k) > j)
  }

  lemma ScannedPush(s: string, index: nat, stack: seq<Frame>, instructions: seq<Instr>)
    requires index < |s| && s[index] == '[' && Scanned(s, index, stack, instructions)
    ensures Scanned(s, index + 1, stack + [Frame(instructions, index)], [])
  {
    var stack' := stack + [Frame(instructions, index)];
    PushBrackets(s, index, stack, instructions);
    assert stack'[..|stack'| - 1] == stack;
    assert StackText(stack') == StackText(stack) + Print(instructions) + "[";
    CommandsSplit(s, 0, index, index + 1);
    assert Print([]) == "";
  }

  /** Opening a loop adds a frame for its `[`, one level deeper than the rest. */
  lemma PushBrackets(s: string, index: nat, stack: seq<Frame>, instructions: seq<Instr>)
    requires index < |s| && s[index] == '[' && OpenBrackets(s, index, stack)
    ensures OpenBrackets(s, index + 1, stack + [Frame(instructions, index)])
  {
    var stack' := stack + [Frame(instructions, index)];
    assert Net(s, 0, index + 1) == |stack| + 1;
    forall j | 0 <= j < |stack'|
      ensures stack'[j].open < index + 1 && s[stack'[j].open] == '[' && Net(s, 0, stack'[j].open) == j
    {
      if j < |stack| {
        assert stack'[j] == stack[j];
      }
    }
    forall j, k | 0 <= j < |stack'| && stack'[j].open < k <= index + 1
      ensures Net(s, 0, k) > j
    {
      if j < |stack| {
        assert stack'[j] == stack[j];
      }
    }
  }

  lemma ScannedPop(s: string, index: nat, stack: seq<Frame>, instructions: seq<Instr>)
    requires index < |s| && s[index] == ']' && Scanned(s, index, stack, instructions) && stack != []
    ensures var top := stack[|stack| - 1];
      Scanned(s, index + 1, stack[..|stack| - 1], top.program + [Loop(instructions)])
  {
    var top := stack[|stack| - 1];
    var rest := stack[..|stack| - 1];
    PopText(s, index, stack, instructions);
    PopBrackets(s, index, stack);
  }

  /** Closing a loop drops the innermost frame, whose `[` the `]` matches. */
  lemma PopBrackets(s: string, index: nat, stack: seq<Frame>)
    requires index < |s| && s[index] == ']' && OpenBrackets(s, index, stack) && stack != []
    ensures OpenBrackets(s, index + 1, stack[..|stack| - 1])
  {
    var rest := stack[..|stack| - 1];
    assert Net(s, 0, index + 1) == |rest|;
    forall j | 0 <= j < |rest|
      ensures rest[j].open < index + 1 && s[rest[j].open] == '[' && Net(s, 0, rest[j].open) == j
    {
      assert rest[j] == stack[j];
    }
    forall j, k | 0 <= j < |rest| && rest[j].open < k <= index + 1
      ensures Net(s, 0, k) > j
    {
      assert stack[j] == rest[j];
    }
  }

  /** Closing a loop moves the innermost frame's text and the loop's text back into one level. */
  lemma PopText(s: string, index: nat, stack: seq<Frame>, instructions: seq<Instr>)
    requires index < |s| && s[index] == ']' && stack != []
    requires FramesShaped(stack) && Shaped(instructions)
    requires CommandsIn(s, 0, index) == StackText(stack) + Print(instructions)
    ensures var top := stack[|stack| - 1];
      && FramesShaped(stack[..|stack| - 1])
      && Shaped(top.program + [Loop(instructions)])
      && CommandsIn(s, 0, index + 1) == StackText(stack[..|stack| - 1]) + Print(top.program + [Loop(instructions)])
  {
    var top := stack[|stack| - 1];
    StackTextPop(stack);
    CommandsClose(s, index);
    PrintLoopAppend(top.program, instructions);
    Regroup(StackText(stack[..|stack| - 1]), Print(top.program), Print(instructions));
  }

  lemma Associate(a: string, b: string, c: string)
    ensures a + b + c == a + (b + c)
  {
  }

  lemma Regroup(before: string, t: string, b: string)
    ensures before + t + "[" + b + "]" == before + (t + "[" + b + "]")
  {
  }

  lemma StackTextPop(stack: seq<Frame>)
    requires FramesShaped(stack) && stack != []
    ensures FramesShaped(stack[..|stack| - 1])
    ensures StackText(stack) == StackText(stack[..|stack| - 1]) + Print(stack[|stack| - 1].program) + "["
  {
  }

  lemma CommandsClose(s: string, index: nat)
    requires index < |s| && s[index] == ']'
    ensures CommandsIn(s, 0, index + 1) == CommandsIn(s, 0, index) + "]"
  {
  }

  lemma PrintLoopAppend(program: seq<Instr>, body: seq<Instr>)
    requires Shaped(program) && Shaped(body)
    ensures Shaped(program + [Loop(body)])
    ensures Print(program + [Loop(body)]) == Print(program) + "[" + Print(body) + "]"
  {
    PrintSingle(Loop(body));
    PrintAppend(program, [Loop(body)]);
  }

  lemma ScannedOther(s: string, index: nat, stack: seq<Frame>, instructions: seq<Instr>)
    requires index < |s| && s[index] != '[' && s[index] != ']' && Scanned(s, index, stack, instructions)
    ensures Scanned(s, index + 1, stack, instructions + NodeOf(s[index]))
  {
    var node := NodeOf(s[index]);
    CommandsSplit(s, 0, index, index + 1);
    CommandsOne(s, index);
    assert Print(node) == CommandsIn(s, index, index + 1);
    PrintAppend(instructions, node);
    Associate(StackText(stack), Print(instructions), Print(node));
    OtherBrackets(s, index, stack);
  }

  /** Any other character leaves the open brackets as they are. */
  lemma OtherBrackets(s: string, index: nat, stack: seq<Frame>)
    requires index < |s| && s[index] != '[' && s[index] != ']' && OpenBrackets(s, index, stack)
    ensures OpenBrackets(s, index + 1, stack)
  {
    assert Net(s, 0, index + 1) == Net(s, 0, index);
  }

  /** A `]` met with no open loop is the first unmatched one. */
  lemma ScannedClose(s: string, index: nat, instructions: seq<Instr>)
    requires index < |s| && s[index] == ']' && Scanned(s, index, [], instructions)
    ensures FirstUnmatchedClose(s, index)
    ensures !Balanced(s, 0, |s|)
  {
    assert Net(s, 0, index + 1) == -1;
  }

  /** Open loops left at the end: the last one is the innermost unclosed bracket. */
  lemma ScannedOpen(s: string, stack: seq<Frame>, instructions: seq<Instr>)
    requires Scanned(s, |s|, stack, instructions) && stack != []
    ensures InnermostUnclosed(s, stack[|stack| - 1].open)
    ensures !Balanced(s, 0, |s|)
  {
    var n := |stack|;
    var p := stack[n - 1].open;
    assert Net(s, 0, p + 1) == n by {
      assert Net(s, 0, p + 1) == Net(s, 0, p) + Delta(s[p]);
    }
    var after := p + 1;
    forall k | after <= k <= |s|
      ensures Net(s, after, k) >= 0
    {
      NetSplit(s, 0, after, k);
      assert Net(s, 0, k) > n - 1;
    }
    NetSplit(s, 0, p + 1, |s|);
  }

  /** The bracket parser reports the same innermost bracket exactly when one bracket is left open. */
  lemma InnermostAgainstOutermost(s: string, p: nat)
    requires InnermostUnclosed(s, p)
    ensures BracketParser.ParseSource(s).Failure?
    ensures BracketParser.ParseSource(s).error.UnmatchedOpen?
    ensures BracketParser.ParseSource(s) == Failure(UnmatchedOpen(p)) <==> Net(s, 0, |s|) == 1
  {
    BracketParser.ParseSourceSpec(s);
    NetSplit(s, 0, p + 1, |s|);
    assert Net(s, 0, p + 1) == Net(s, 0, p) + 1;
    var e := BracketParser.ParseSource(s).error;
    assert Net(s, 0, e.position + 1) == Net(s, 0, e.position) + Delta(s[e.position]);
    if Net(s, 0, |s|) == 1 {
      forall k | p < k <= |s|
        ensures Net(s, p, k) > 0
      {
        NetSplit(s, p, p + 1, k);
        NetSplit(s, 0, p + 1, k);
        NetSplit(s, 0, p, k);
      }
      BracketParser.ErrorUnique(s, e, UnmatchedOpen(p));
    }
  }

  /** The postcondition of `Parse` when the text has been read to the end with no loop open. */
  lemma FinishSuccess(s: string, instructions: seq<Instr>)
    requires Scanned(s, |s|, [], instructions)
    ensures Balanced(s, 0, |s|)
    ensures Shaped(instructions) && Print(instructions) == Commands(s)
    ensures BracketParser.ParseSource(s) == Success(instructions)
  {
    assert StackText([]) == "";
    assert "" + Print(instructions) == Print(instructions);
    BracketParser.ParseSourceSpec(s);
    BracketParser.PrintInjective(instructions, BracketParser.ParseSource(s).value);
  }

  /** The postcondition of `Parse` when a `]` is met with no loop open. */
  lemma FinishClose(s: string, index: nat, instructions: seq<Instr>)
    requires index < |s| && s[index] == ']' && Scanned(s, index, [], instructions)
    ensures !Balanced(s, 0, |s|)
    ensures FirstUnmatchedClose(s, index)
    ensures BracketParser.ParseSource(s) == Failure(UnmatchedClose(index))
  {
    ScannedClose(s, index, instructions);
    BracketParser.ParseSourceSpec(s);
    BracketParser.ErrorUnique(s, BracketParser.ParseSource(s).error, UnmatchedClose(index));
  }

  /** The postcondition of `Parse` when loops are still open at the end. */
  lemma FinishOpen(s: string, stack: seq<Frame>, instructions: seq<Instr>)
    requires Scanned(s, |s|, stack, instructions) && stack != []
    ensures !Balanced(s, 0, |s|)
    ensures InnermostUnclosed(s, stack[|stack| - 1].open)
    ensures BracketParser.ParseSource(s) == Failure(UnmatchedOpen(stack[|stack| - 1].open))
      <==> Net(s, 0, |s|) == 1
  {
    ScannedOpen(s, stack, instructions);
    InnermostAgainstOutermost(s, stack[|stack| - 1].open);
  }

  /**
   * `parse`: succeeds exactly on balanced texts, returning the tree that
   * prints back as the text's commands, the same tree the bracket-matching
   * parser builds.  An unmatched `]` is reported where the bracket parser
   * reports it; an unclosed `[` at the innermost one, which is the bracket
   * parser's answer exactly when a single bracket is left open.
   */
  method Parse(s: string) returns (r: Result<seq<Instr>, ParseError>)
    ensures r.Success? <==> Balanced(s, 0, |s|)
    ensures r.Success? ==> Shaped(r.value) && Print(r.value) == Commands(s)
    ensures r.Success? ==> BracketParser.ParseSource(s) == r
    ensures r.Failure? && r.error.UnmatchedClose? ==>
      FirstUnmatchedClose(s, r.error.position) && BracketParser.ParseSource(s) == r
    ensures r.Failure? && r.error.UnmatchedOpen? ==>
      InnermostUnclosed(s, r.error.position) &&
      (BracketParser.ParseSource(s) == r <==> Net(s, 0, |s|) == 1)
  {
    var instructions: seq<Instr> := [];
    var stack: seq<Frame> := [];
    var index := 0;
    while index < |s|
      invariant Scanned(s, index, stack, instructions)
    {
      var c := s[index];
      if c == '[' {
        ScannedPush(s, index, stack, instructions);
        stack := stack + [Frame(instructions, index)];
        instructions := [];
      } else if c == ']' {
        if stack == [] {
          FinishClose(s, index, instructions);
          return Failure(UnmatchedClose(index));
        }
        ScannedPop(s, index, stack, instructions);
        var top := stack[|stack| - 1];
        stack := stack[..|stack| - 1];
        instructions := top.program + [Loop(instructions)];
      } else {
        ScannedOther(s, index, stack, instructions);
        instructions := instructions + NodeOf(c);
      }
      index := index + 1;
    }
    if stack != [] {
      FinishOpen(s, stack, instructions);
      return Failure(UnmatchedOpen(stack[|stack| - 1].open));
    }
    FinishSuccess(s, instructions);
    return Success(instructions);
  }

  /** The unit tests of `parse`: a nested program, a comment, and the four unbalanced texts. */
  method ParseTests() returns (nested: Result<seq<Instr>, ParseError>, comment: Result<seq<Instr>, ParseError>,
                               open: Result<seq<Instr>, ParseError>, close: Result<seq<Instr>, ParseError>,
                               closeOpen: Result<seq<Instr>, ParseError>, loopOpen: Result<seq<Instr>, ParseError>)
    ensures nested == Success([Write, Loop([Read, Increment(1, 0)]), Increment(-1, 0)])
    ensures comment == Success([])
    ensures open == Failure(UnmatchedOpen(0))
    ensures close == Failure(UnmatchedClose(0))
    ensures closeOpen == Failure(UnmatchedClose(0))
    ensures loopOpen == Failure(UnmatchedOpen(2))
  {
    BracketParser.ParseNestedExample();
    BracketParser.ParseCommentExample();
    BracketParser.ParseUnbalancedExamples();
    BracketParser.ParseSourceSpec(".[,+]-");
    nested := Parse(".[,+]-");
    BracketParser.ParseSourceSpec("foo! ");
    comment := Parse("foo! ");
    assert Net("[", 0, 1) == 1;
    open := Parse("[");
    assert Net("]", 0, 1) == -1;
    close := Parse("]");
    assert Net("][", 0, 1) == -1;
    closeOpen := Parse("][");
    assert Net("[][", 1, 2) == -1 && Net("[][", 0, 3) == 1;
    loopOpen := Parse("[][");
  }
}
