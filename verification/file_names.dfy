/**
 * The output file names of the two drivers: `obj_file_name` of src/main.rs
 * turns a source file name into an object file name, and `ll_file_name` of
 * rust_src/src/main.rs into an LLVM IR file name.  Both split the name on
 * dots, replace the last piece with the new extension when there is more
 * than one piece (append it otherwise), and join the pieces with dots again.
 */
module FileNames {
  import opened Text

  /** The name with its extension replaced by `ext`, or with `ext` appended when it has none. */
  function ReplaceExtension(name: string, ext: string): string
  {
    var parts := Split(name, '.');
    var replaced := if |parts| > 1 then parts[..|parts| - 1] + [ext] else parts + [ext];
    Join(replaced, '.')
  }

  /** `obj_file_name`: "foo.bf" becomes "foo.o". */
  function ObjFileName(name: string): (r: string)
    ensures LastDot(name) == -1 ==> r == name + ".o"
    ensures LastDot(name) >= 0 ==> r == name[..LastDot(name) + 1] + "o"
  {
    ReplaceExtensionMeaning(name, "o");
    ReplaceExtension(name, "o")
  }

  /** `ll_file_name`: "foo.bf" becomes "foo.ll". */
  function LlFileName(name: string): (r: string)
    ensures LastDot(name) == -1 ==> r == name + ".ll"
    ensures LastDot(name) >= 0 ==> r == name[..LastDot(name) + 1] + "ll"
  {
    ReplaceExtensionMeaning(name, "ll");
    ReplaceExtension(name, "ll")
  }

  /** The index of the last dot of `s`, or -1 when it has none. */
  function LastDot(s: string): (k: int)
    ensures -1 <= k < |s|
  {
    if s == [] then -1
    else if s[|s| - 1] == '.' then |s| - 1
    else LastDot(s[..|s| - 1])
  }

  /** `LastDot` finds a dot with no dot after it, and finds none only in a dot-free text. */
  lemma {:induction false} LastDotMeaning(s: string)
    ensures LastDot(s) == -1 <==> '.' !in s
    ensures LastDot(s) >= 0 ==> s[LastDot(s)] == '.' && '.' !in s[LastDot(s) + 1..]
  {
    if s != [] && s[|s| - 1] != '.' {
      var front := s[..|s| - 1];
      LastDotMeaning(front);
      assert s == front + [s[|s| - 1]];
      var k := LastDot(front);
      if k >= 0 {
        assert s[k + 1..] == front[k + 1..] + [s[|s| - 1]];
      }
    }
  }

  /** The last dot of a text ending in a dot and a dot-free piece is that dot. */
  lemma {:induction false} LastDotBeforePiece(a: string, b: string)
    requires '.' !in b
    ensures LastDot(a + ['.'] + b) == |a|
    decreases |b|
  {
    var s := a + ['.'] + b;
    if b != [] {
      assert s[..|s| - 1] == a + ['.'] + b[..|b| - 1];
      assert s[|s| - 1] == b[|b| - 1];
      LastDotBeforePiece(a, b[..|b| - 1]);
    }
  }

  /**
   * A name with no dot gets a dot and the extension appended; otherwise
   * everything up to and including its last dot is kept and the text after
   * that dot is replaced by the extension.
   */
  lemma ReplaceExtensionMeaning(name: string, ext: string)
    ensures LastDot(name) == -1 ==> ReplaceExtension(name, ext) == name + "." + ext
    ensures LastDot(name) >= 0 ==> ReplaceExtension(name, ext) == name[..LastDot(name) + 1] + ext
  {
    var parts := Split(name, '.');
    JoinSplit(name, '.');
    SplitOnePiece(name, '.');
    LastDotMeaning(name);
    var n := |parts|;
    if n > 1 {
      var front := parts[..n - 1];
      assert parts == front + [parts[n - 1]];
      JoinSnoc(front, parts[n - 1], '.');
      JoinSnoc(front, ext, '.');
      assert '.' !in parts[n - 1];
      LastDotBeforePiece(Join(front, '.'), parts[n - 1]);
      assert name[..LastDot(name) + 1] == Join(front, '.') + ['.'];
    } else {
      JoinSnoc(parts, ext, '.');
    }
  }

  /** The new name always ends with a dot and the extension. */
  lemma EndsWithExtension(name: string, ext: string)
    ensures var r := ReplaceExtension(name, ext);
      |r| > |ext| && r[|r| - |ext| - 1..] == "." + ext
  {
    ReplaceExtensionMeaning(name, ext);
    LastDotMeaning(name);
    var r := ReplaceExtension(name, ext);
    if LastDot(name) >= 0 {
      var front := name[..LastDot(name)];
      assert name[..LastDot(name) + 1] == front + ".";
      assert r == front + "." + ext;
    }
  }

  /** Replacing the extension twice is the same as replacing it once with the second extension, when the first has no dot. */
  lemma ReplaceTwice(name: string, ext1: string, ext2: string)
    requires '.' !in ext1
    ensures ReplaceExtension(ReplaceExtension(name, ext1), ext2) == ReplaceExtension(name, ext2)
  {
    ReplaceExtensionMeaning(name, ext1);
    ReplaceExtensionMeaning(name, ext2);
    var r := ReplaceExtension(name, ext1);
    ReplaceExtensionMeaning(r, ext2);
    LastDotMeaning(name);
    var front := if LastDot(name) >= 0 then name[..LastDot(name)] else name;
    if LastDot(name) >= 0 {
      assert name[..LastDot(name) + 1] == front + ".";
    }
    assert r == front + "." + ext1;
    LastDotBeforePiece(front, ext1);
    assert r[..LastDot(r) + 1] == front + ".";
  }

  /** The file names the drivers write for `foo.bf`, for `foo` and for `a.b.bf`. */
  lemma FileNameExamples()
    ensures ObjFileName("foo.bf") == "foo.o"
    ensures LlFileName("foo.bf") == "foo.ll"
    ensures ObjFileName("foo") == "foo.o"
    ensures ObjFileName("a.b.bf") == "a.b.o"
  {
    LastDotOfFoo();
    LastDotOfDotted();
    assert '.' !in "foo";
    LastDotMeaning("foo");
  }

  /** The dot of `foo.bf` is at index 3. */
  lemma LastDotOfFoo()
    ensures LastDot("foo.bf") == 3
  {
    LastDotBeforePiece("foo", "bf");
    assert "foo.bf" == "foo" + ['.'] + "bf";
  }

  /** The last dot of `a.b.bf` is at index 3. */
  lemma LastDotOfDotted()
    ensures LastDot("a.b.bf") == 3
  {
    LastDotBeforePiece("a.b", "bf");
    assert "a.b.bf" == "a.b" + ['.'] + "bf";
  }
}
