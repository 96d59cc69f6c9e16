/**
 * `position` of src/diagnostics.rs: the zero-based line and column of an
 * index into the source text, found by walking the lines that `split('\n')`
 * yields and keeping a running count of the characters before each.  An
 * index past the end of the text has no position; the source reaches
 * `unreachable!` there, and the model answers `None`.  Characters are the
 * elements of a `string`; the source counts UTF-8 bytes, which agree with
 * them on ASCII text.
 */
module Diagnostics {
  import opened Wrappers
  import opened Text

  /** `s.split('\n')`: the text between newlines, including an empty piece after a final newline. */
  function Lines(s: string): (r: seq<string>)
    ensures |r| >= 1
  {
    Split(s, '\n')
  }

  /** The index at which line `l` starts: the lengths of the lines before it, each with its newline. */
  function LineStart(lines: seq<string>, l: nat): nat
    requires l <= |lines|
  {
    if l == 0 then 0 else LineStart(lines, l - 1) + |lines[l - 1]| + 1
  }

  /**
   * The loop of `position` from line `index` on, `count` being the
   * characters before it.  The first line that reaches `i` holds it.
   */
  function PositionFrom(lines: seq<string>, index: nat, count: nat, i: nat): Option<(nat, nat)>
    requires count <= i
    decreases |lines|
  {
    if lines == [] then None
    else if count + |lines[0]| >= i then Some((index, i - count))
    else PositionFrom(lines[1..], index + 1, count + |lines[0]| + 1, i)
  }

  /** `position`: the line and column of index `i` of `s`, or `None` past the end. */
  function Position(s: string, i: nat): Option<(nat, nat)> {
    PositionFrom(Lines(s), 0, 0, i)
  }

  // ---------------------------------------------------------------------
  // Splitting

  /** The joined length: every line, and a newline between neighbours. */
  lemma {:induction false} JoinLength(lines: seq<string>)
    requires |lines| >= 1
    ensures |Join(lines, '\n')| + 1 == LineStart(lines, |lines|)
  {
    if |lines| > 1 {
      JoinLength(lines[1..]);
      LineStartShift(lines, |lines|);
    }
  }

  /** Dropping the first line moves every later start back by its length and newline. */
  lemma {:induction false} LineStartShift(lines: seq<string>, l: nat)
    requires 1 <= l <= |lines|
    ensures LineStart(lines, l) == |lines[0]| + 1 + LineStart(lines[1..], l - 1)
  {
    if l > 1 {
      LineStartShift(lines, l - 1);
    }
  }

  // ---------------------------------------------------------------------
  // What the position means

  /** The walk has a position exactly when `i` is at most the end of the last line. */
  lemma {:induction false} PositionFromDefined(lines: seq<string>, index: nat, count: nat, i: nat)
    requires count <= i && |lines| >= 1
    ensures PositionFrom(lines, index, count, i).Some? <==> i + 1 <= count + LineStart(lines, |lines|)
    decreases |lines|
  {
    LineStartShift(lines, |lines|);
    if count + |lines[0]| < i && |lines| > 1 {
      PositionFromDefined(lines[1..], index + 1, count + |lines[0]| + 1, i);
    }
  }

  /**
   * The line the walk stops at is one of the lines, its column is within
   * that line, and its start plus the column is `i`.
   */
  lemma {:induction false} PositionFromFound(lines: seq<string>, index: nat, count: nat, i: nat, l: nat, c: nat)
    requires count <= i && PositionFrom(lines, index, count, i) == Some((l, c))
    ensures index <= l < index + |lines|
    ensures c <= |lines[l - index]| && i == count + LineStart(lines, l - index) + c
    decreases |lines|
  {
    if count + |lines[0]| < i {
      var rest := lines[1..];
      var j := l - index;
      PositionFromFound(rest, index + 1, count + |lines[0]| + 1, i, l, c);
      assert lines[j] == rest[j - 1];
      LineStartShift(lines, j);
    }
  }

  /** Every line before the one the walk stops at ends before `i`. */
  lemma {:induction false} PositionFromFirst(lines: seq<string>, index: nat, count: nat, i: nat, l: nat, c: nat)
    requires count <= i && PositionFrom(lines, index, count, i) == Some((l, c))
    ensures forall k | 0 <= k < l - index && k < |lines| :: count + LineStart(lines, k) + |lines[k]| < i
    decreases |lines|
  {
    if count + |lines[0]| < i {
      var rest := lines[1..];
      var next := count + |lines[0]| + 1;
      PositionFromFirst(rest, index + 1, next, i, l, c);
      forall k | 0 <= k < l - index && k < |lines|
        ensures count + LineStart(lines, k) + |lines[k]| < i
      {
        if k > 0 {
          LineStartShift(lines, k);
          assert lines[k] == rest[k - 1];
          assert next + LineStart(rest, k - 1) + |rest[k - 1]| < i;
        }
      }
    }
  }

  /**
   * `position` is defined exactly on the indices up to the length of the
   * text; its line is a line of the text, its column is at most that line's
   * length, the line's start plus the column gives the index back, and every
   * earlier line ends before the index, so the line is the first that can
   * hold it.
   */
  lemma PositionMeaning(s: string, i: nat)
    ensures Position(s, i).Some? <==> i <= |s|
    ensures Position(s, i).Some? ==>
      var (l, c) := Position(s, i).value;
      l < |Lines(s)| && c <= |Lines(s)[l]| && i == LineStart(Lines(s), l) + c &&
      forall k | 0 <= k < l :: LineStart(Lines(s), k) + |Lines(s)[k]| < i
  {
    var lines := Lines(s);
    PositionFromDefined(lines, 0, 0, i);
    JoinSplit(s, '\n');
    JoinLength(lines);
    if Position(s, i).Some? {
      var (l, c) := Position(s, i).value;
      PositionFromFound(lines, 0, 0, i, l, c);
      PositionFromFirst(lines, 0, 0, i, l, c);
    }
  }

  /** An index in the first line is its own column on line zero. */
  lemma FirstLine(s: string, i: nat)
    requires i <= |Lines(s)[0]|
    ensures Position(s, i) == Some((0, i))
  {
  }

  /** The index of a newline is the end of the line it closes. */
  lemma NewlineEndsLine(s: string, i: nat)
    requires i < |s| && s[i] == '\n'
    ensures var p := Position(s, i);
      p.Some? && p.value.0 < |Lines(s)| && p.value.1 == |Lines(s)[p.value.0]|
  {
    PositionMeaning(s, i);
    var (l, c) := Position(s, i).value;
    JoinSplit(s, '\n');
    CharAt(Lines(s), l, c);
  }

  /** Column `c` of line `l`, when it is inside the line, is the character at the line's start plus `c`. */
  lemma {:induction false} CharAt(lines: seq<string>, l: nat, c: nat)
    requires |lines| >= 1 && l < |lines|
    ensures c < |lines[l]| ==> LineStart(lines, l) + c < |Join(lines, '\n')| && Join(lines, '\n')[LineStart(lines, l) + c] == lines[l][c]
    decreases l
  {
    if |lines| > 1 {
      var rest := lines[1..];
      assert Join(lines, '\n') == lines[0] + ['\n'] + Join(rest, '\n');
      if l > 0 {
        CharAt(rest, l - 1, c);
        LineStartShift(lines, l);
        assert lines[l] == rest[l - 1];
      }
    }
  }

  /** Two lines: index 3 of `ab\ncd` is line 1, column 0, and the newline at 2 is the end of line 0. */
  lemma PositionExample()
    ensures Position("ab\ncd", 3) == Some((1, 0))
    ensures Position("ab\ncd", 2) == Some((0, 2))
    ensures Position("ab\ncd", 6) == None
  {
    var s := "ab\ncd";
    assert s[1..] == "b\ncd" && "b\ncd"[1..] == "\ncd" && "\ncd"[1..] == "cd";
    assert "cd"[1..] == "d" && "d"[1..] == "";
    assert Lines("") == [""];
    assert ['d'] + "" == "d";
    assert Lines("d") == ["d"];
    assert ['c'] + "d" == "cd";
    assert Lines("cd") == ["cd"];
    assert Lines("\ncd") == ["", "cd"];
    assert ['b'] + "" == "b";
    assert Lines("b\ncd") == ["b", "cd"];
    assert ['a'] + "b" == "ab";
    assert Lines(s) == ["ab", "cd"];
  }
}
