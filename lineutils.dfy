/**
 * Line-oriented file helpers of aeigo: finding the first line that holds a
 * pattern, copying the first n lines of a file, and dropping blank lines.
 *
 * An input file is `Option<seq<string>>`: `None` when it cannot be opened,
 * otherwise the lines its scanner yields (line terminators removed). An
 * output file is written through a `Builder`; whether it can be created is
 * a boolean parameter.
 */
module LineUtils {
  import opened Wrappers
  import opened GoStrings

  /** Why a copy between two files stopped before writing anything. */
  datatype FileError = OpenFailed | CreateFailed

  /** Every line is free of line terminators, as a scanner yields them. */
  predicate ScannedLines(lines: seq<string>)
  {
    forall k :: 0 <= k < |lines| ==> Newline !in lines[k]
  }

  // ---------------------------------------------------------------------
  // getLineCount
  // ---------------------------------------------------------------------

  /**
   * The index of the first line that contains `pattern`, or -1 when the
   * file cannot be opened or no line contains it.
   */
  method GetLineCount(pattern: string, file: Option<seq<string>>) returns (r: int)
    ensures file.None? ==> r == -1
    ensures file.Some? ==> -1 <= r < |file.value|
    ensures file.Some? && r >= 0 ==> Contains(file.value[r], pattern)
    ensures file.Some? ==> forall k :: 0 <= k < |file.value| && (r == -1 || k < r) ==> !Contains(file.value[k], pattern)
    ensures file.Some? ==> r == FirstMatch(file.value, pattern)
  {
    if file.None? {
      return -1;
    }
    var lines := file.value;
    var count := 0;
    while count < |lines|
      invariant 0 <= count <= |lines|
      invariant forall k :: 0 <= k < count ==> !Contains(lines[k], pattern)
    {
      if Contains(lines[count], pattern) {
        return count;
      }
      count := count + 1;
    }
    return -1;
  }

  /** The first matching index, as a function of the lines. */
  function FirstMatch(lines: seq<string>, pattern: string): (r: int)
    ensures -1 <= r < |lines|
    ensures r >= 0 ==> Contains(lines[r], pattern)
    ensures forall k :: 0 <= k < |lines| && (r == -1 || k < r) ==> !Contains(lines[k], pattern)
  {
    if lines == [] then -1
    else if Contains(lines[0], pattern) then 0
    else
      var rest := FirstMatch(lines[1..], pattern);
      if rest == -1 then -1 else rest + 1
  }

  /** A line matches exactly when the pattern occurs in it at some offset. */
  lemma FirstMatchOccurs(lines: seq<string>, pattern: string)
    requires FirstMatch(lines, pattern) >= 0
    ensures exists i :: 0 <= i <= |lines[FirstMatch(lines, pattern)]|
                     && HasPrefix(lines[FirstMatch(lines, pattern)][i..], pattern)
  {
    ContainsAt(lines[FirstMatch(lines, pattern)], pattern);
  }

  /** Lines appended after a match do not move it. */
  lemma {:induction false} FirstMatchAppend(a: seq<string>, b: seq<string>, pattern: string)
    ensures FirstMatch(a + b, pattern) ==
              if FirstMatch(a, pattern) >= 0 then FirstMatch(a, pattern)
              else if FirstMatch(b, pattern) >= 0 then |a| + FirstMatch(b, pattern)
              else -1
  {
    if a == [] {
      assert a + b == b;
    } else {
      assert (a + b)[0] == a[0];
      assert (a + b)[1..] == a[1..] + b;
      if !Contains(a[0], pattern) {
        FirstMatchAppend(a[1..], b, pattern);
      }
    }
  }

  // ---------------------------------------------------------------------
  // copyFirstNLines
  // ---------------------------------------------------------------------

  /** How many lines a copy of the first `n` of `total` lines writes. */
  function CopyCount(n: int, total: nat): (c: nat)
    ensures c <= total
    ensures n <= 0 ==> c == 0
    ensures 0 <= n <= total ==> c == n
    ensures n >= total ==> c == total
  {
    if n <= 0 then 0 else if n < total then n else total
  }

  /**
   * Copies the first `n` lines of `source` to a fresh destination, each
   * followed by a newline. Opening the source is tried before creating the
   * destination.
   */
  method CopyFirstNLines(source: Option<seq<string>>, destinationCreated: bool, n: int)
    returns (r: Result<string, FileError>)
    ensures source.None? ==> r == Failure(OpenFailed)
    ensures source.Some? && !destinationCreated ==> r == Failure(CreateFailed)
    ensures source.Some? && destinationCreated ==>
              r == Success(Unlines(source.value[..CopyCount(n, |source.value|)]))
  {
    if source.None? {
      return Failure(OpenFailed);
    }
    if !destinationCreated {
      return Failure(CreateFailed);
    }
    var lines := source.value;
    var destination := new Builder();
    var count := 0;
    while count < |lines|
      invariant 0 <= count <= |lines|
      invariant count <= CopyCount(n, |lines|)
      invariant destination.buf == Unlines(lines[..count])
    {
      if count >= n {
        break;
      }
      UnlinesAppend(lines[..count], [lines[count]]);
      assert lines[..count + 1] == lines[..count] + [lines[count]];
      destination.WriteString(lines[count] + [Newline]);
      count := count + 1;
    }
    return Success(destination.String());
  }

  /** A copy of the first lines begins the text of the whole file. */
  lemma CopyIsPrefix(lines: seq<string>, n: int)
    ensures HasPrefix(Unlines(lines), Unlines(lines[..CopyCount(n, |lines|)]))
  {
    var c := CopyCount(n, |lines|);
    var copied, rest := lines[..c], lines[c..];
    assert lines == copied + rest;
    UnlinesAppend(copied, rest);
    PrefixKept(Unlines(copied), Unlines(rest));
  }

  /** Read back line by line, a copy yields exactly the lines it kept. */
  lemma CopyReadBack(lines: seq<string>, n: int)
    requires ScannedLines(lines)
    ensures Split(Unlines(lines[..CopyCount(n, |lines|)])) == lines[..CopyCount(n, |lines|)] + [""]
  {
    SplitUnlines(lines[..CopyCount(n, |lines|)]);
  }

  // ---------------------------------------------------------------------
  // removeEmptyLines
  // ---------------------------------------------------------------------

  /** A line that holds nothing but white space. */
  predicate Blank(line: string)
  {
    |TrimSpace(line)| == 0
  }

  /** The lines that are not blank, in their original order. */
  function NonBlank(lines: seq<string>): (r: seq<string>)
    ensures |r| <= |lines|
  {
    if lines == [] then []
    else
      var init := NonBlank(lines[..|lines| - 1]);
      if Blank(lines[|lines| - 1]) then init else init + [lines[|lines| - 1]]
  }

  /** A line is kept exactly when it appears in the input and is not blank. */
  lemma {:induction false} NonBlankMembers(lines: seq<string>, line: string)
    ensures line in NonBlank(lines) <==> line in lines && !Blank(line)
  {
    if lines != [] {
      var init := lines[..|lines| - 1];
      assert lines == init + [lines[|lines| - 1]];
      NonBlankMembers(init, line);
    }
  }

  /** Filtering a concatenation filters each part. */
  lemma {:induction false} NonBlankAppend(a: seq<string>, b: seq<string>)
    ensures NonBlank(a + b) == NonBlank(a) + NonBlank(b)
  {
    if b == [] {
      assert a + b == a;
    } else {
      var init := b[..|b| - 1];
      assert (a + b)[..|a + b| - 1] == a + init;
      assert (a + b)[|a + b| - 1] == b[|b| - 1];
      NonBlankAppend(a, init);
    }
  }

  /** No blank line survives, so filtering twice changes nothing. */
  lemma {:induction false} NonBlankIdempotent(lines: seq<string>)
    ensures NonBlank(NonBlank(lines)) == NonBlank(lines)
  {
    if lines != [] {
      var init := lines[..|lines| - 1];
      var last := lines[|lines| - 1];
      NonBlankIdempotent(init);
      if !Blank(last) {
        NonBlankAppend(NonBlank(init), [last]);
        assert NonBlank([last]) == NonBlank([]) + [last] by {
          assert [last][..0] == [];
        }
      }
    }
  }

  /**
   * Copies the non-blank lines of `inputFile` to a fresh output file, each
   * unmodified and followed by a newline.
   */
  method RemoveEmptyLines(inputFile: Option<seq<string>>, outputCreated: bool)
    returns (r: Result<string, FileError>)
    ensures inputFile.None? ==> r == Failure(OpenFailed)
    ensures inputFile.Some? && !outputCreated ==> r == Failure(CreateFailed)
    ensures inputFile.Some? && outputCreated ==> r == Success(Unlines(NonBlank(inputFile.value)))
  {
    if inputFile.None? {
      return Failure(OpenFailed);
    }
    if !outputCreated {
      return Failure(CreateFailed);
    }
    var lines := inputFile.value;
    var destination := new Builder();
    for i := 0 to |lines|
      invariant destination.buf == Unlines(NonBlank(lines[..i]))
    {
      assert lines[..i + 1][..i] == lines[..i];
      var line := lines[i];
      if |TrimSpace(line)| > 0 {
        UnlinesAppend(NonBlank(lines[..i]), [line]);
        destination.WriteString(line + [Newline]);
      }
    }
    assert lines[..|lines|] == lines;
    return Success(destination.String());
  }

  /** Read back line by line, the output holds no blank line. */
  lemma RemoveEmptyLinesReadBack(lines: seq<string>)
    requires ScannedLines(lines)
    ensures Split(Unlines(NonBlank(lines))) == NonBlank(lines) + [""]
    ensures forall k :: 0 <= k < |NonBlank(lines)| ==> !Blank(NonBlank(lines)[k])
  {
    forall k | 0 <= k < |NonBlank(lines)|
      ensures Newline !in NonBlank(lines)[k] && !Blank(NonBlank(lines)[k])
    {
      NonBlankMembers(lines, NonBlank(lines)[k]);
    }
    SplitUnlines(NonBlank(lines));
  }
}
