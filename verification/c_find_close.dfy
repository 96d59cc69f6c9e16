/**
 * `find_close` of the C interpreter (c/main.c): from the character after an
 * opening bracket, count nesting depth and stop at the first `]` met at depth
 * zero.  The C function falls off its end when there is none; that case is
 * `None` here.
 */
module CFindClose {
  import opened Wrappers
  import opened Syntax
  import BracketParser

  /**
   * The index of the `]` closing the bracket at `open`: the first index after
   * `open` at which the depth counted from `open + 1` would go below zero.
   */
  method FindClose(program: string, open: nat) returns (r: Option<nat>)
    requires open < |program|
    ensures r.Some? ==>
      && open < r.value < |program| && program[r.value] == ']'
      && Net(program, open + 1, r.value) == 0
      && NeverBelowZero(program, open + 1, r.value)
    ensures r.None? <==> NeverBelowZero(program, open + 1, |program|)
    ensures program[open] == '[' && r.Some? ==> BracketParser.FindMatchingClose(program, open) == r.value
    ensures program[open] == '[' ==> (r.None? <==> BracketParser.FindMatchingClose(program, open) == -1)
  {
    var depth := 0;
    var i := open + 1;
    while i < |program|
      invariant open + 1 <= i <= |program|
      invariant depth == Net(program, open + 1, i) && depth >= 0
      invariant NeverBelowZero(program, open + 1, i)
    {
      var c := program[i];
      if c == '[' {
        depth := depth + 1;
      } else if c == ']' {
        if depth == 0 {
          assert Net(program, open + 1, i + 1) == -1;
          if program[open] == '[' {
            AgreesWithFindMatchingClose(program, open, Some(i));
          }
          return Some(i);
        }
        depth := depth - 1;
      }
      i := i + 1;
    }
    if program[open] == '[' {
      AgreesWithFindMatchingClose(program, open, None);
    }
    return None;
  }

  /** Depth counted from `open` is one more than depth counted from `open + 1`. */
  lemma NetAfterOpen(s: string, open: nat, k: nat)
    requires open < k <= |s| && s[open] == '['
    ensures Net(s, open, k) == 1 + Net(s, open + 1, k)
  {
    NetSplit(s, open, open + 1, k);
  }

  /**
   * Any answer meeting `FindClose`'s contract, started on a `[`, is the C++
   * `findMatchingClose`'s answer, and is `None` exactly when that returns -1.
   */
  lemma AgreesWithFindMatchingClose(s: string, open: nat, r: Option<nat>)
    requires open < |s| && s[open] == '['
    requires r.Some? ==>
      && open < r.value < |s| && s[r.value] == ']'
      && Net(s, open + 1, r.value) == 0
      && NeverBelowZero(s, open + 1, r.value)
    requires r.None? <==> NeverBelowZero(s, open + 1, |s|)
    ensures r.Some? ==> BracketParser.FindMatchingClose(s, open) == r.value
    ensures r.None? <==> BracketParser.FindMatchingClose(s, open) == -1
  {
    var first := open + 1;
    forall k | first <= k <= |s|
      ensures Net(s, open, k) == 1 + Net(s, first, k)
    {
      NetAfterOpen(s, open, k);
    }
    if r.Some? {
      var c := r.value;
      assert Net(s, first, c + 1) == Net(s, first, c) + Delta(s[c]);
      BracketParser.MatchingCloseUnique(s, open, c);
    } else {
      assert forall k | open < k <= |s| :: Net(s, open, k) > 0;
    }
  }
}
