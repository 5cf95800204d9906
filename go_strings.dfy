/**
 * The parts of Go's `strings` package the blocklist pipeline uses, on strings
 * seen as sequences of Unicode code points. Splitting, trimming and prefix
 * tests only look at ASCII characters, which UTF-8 encodes as single bytes,
 * and code-point order agrees with Go's byte order on valid UTF-8.
 */
module GoStrings {

  /** The newline separator used by `strings.Split(s, "\n")`. */
  const Newline: char := '\n'

  // ---------------------------------------------------------------------------
  // Splitting on "\n" and joining back

  /** Joins pieces with "\n" between consecutive pieces (`strings.Join(ps, "\n")`). */
  function Join(ps: seq<string>): string
  {
    if |ps| == 0 then ""
    else if |ps| == 1 then ps[0]
    else ps[0] + [Newline] + Join(ps[1..])
  }

  /**
   * `strings.Split(s, "\n")`: the maximal newline-free pieces between
   * separators. There is always at least one piece (`Split("") == [""]`).
   */
  function Split(s: string): (r: seq<string>)
    ensures |r| >= 1
  {
    if |s| == 0 then [""]
    else
      var rest := Split(s[1..]);
      if s[0] == Newline then [""] + rest
      else [[s[0]] + rest[0]] + rest[1..]
  }

  /** No piece holds a newline. */
  lemma {:induction false} SplitPieces(s: string)
    ensures forall k :: 0 <= k < |Split(s)| ==> Newline !in Split(s)[k]
  {
    if |s| > 0 {
      SplitPieces(s[1..]);
    }
  }

  /** Joining the pieces with "\n" gives back the string. */
  lemma {:induction false} JoinSplit(s: string)
    ensures Join(Split(s)) == s
  {
    if |s| > 0 {
      JoinSplit(s[1..]);
      var rest := Split(s[1..]);
      if s[0] != Newline && |rest| > 1 {
        assert ([[s[0]] + rest[0]] + rest[1..])[1..] == rest[1..];
      }
      if s[0] == Newline {
        assert ([""] + rest)[1..] == rest;
      }
      assert s == [s[0]] + s[1..];
    }
  }

  /** A newline-free first line is split off as one piece. */
  lemma SplitLine(a: string, b: string)
    requires Newline !in a
    ensures Split(a + [Newline] + b) == [a] + Split(b)
  {
    SplitAt(a, b);
    SplitNoNewline(a);
  }

  /** A string without a newline is a single piece. */
  lemma {:induction false} SplitNoNewline(s: string)
    requires Newline !in s
    ensures Split(s) == [s]
  {
    if |s| > 0 {
      assert Newline !in s[1..];
      SplitNoNewline(s[1..]);
      assert [s[0]] + s[1..] == s;
    }
  }

  /** Splitting distributes over a separator: the pieces of `a` then those of `b`. */
  lemma {:induction false} SplitAt(a: string, b: string)
    ensures Split(a + [Newline] + b) == Split(a) + Split(b)
  {
    if |a| == 0 {
      assert a + [Newline] + b == [Newline] + b;
      SplitCons(Newline, b);
    } else {
      var x := a[1..] + [Newline] + b;
      assert a + [Newline] + b == [a[0]] + x;
      assert [a[0]] + a[1..] == a;
      SplitAt(a[1..], b);
      SplitCons(a[0], a[1..]);
      SplitConsPieces(a[0], Split(a[1..]), Split(b), x);
    }
  }

  /** `SplitCons` when the rest is already known to split into `t + u`. */
  lemma SplitConsPieces(c: char, t: seq<string>, u: seq<string>, x: string)
    requires |t| >= 1 && Split(x) == t + u
    ensures Split([c] + x) == (if c == Newline then [""] + t else [[c] + t[0]] + t[1..]) + u
  {
    SplitCons(c, x);
    if c != Newline {
      FirstPieceExtended([c], t, u);
    }
  }

  /** Extending the first piece commutes with appending further pieces. */
  lemma FirstPieceExtended(h: string, t: seq<string>, u: seq<string>)
    requires |t| >= 1
    ensures [h + (t + u)[0]] + (t + u)[1..] == ([h + t[0]] + t[1..]) + u
  {
    assert (t + u)[1..] == t[1..] + u;
  }

  /** One step of `Split`: a leading character either ends a piece or starts the first one. */
  lemma SplitCons(c: char, t: string)
    ensures Split([c] + t) == if c == Newline then [""] + Split(t) else [[c] + Split(t)[0]] + Split(t)[1..]
  {
    assert ([c] + t)[1..] == t;
  }

  /** Split is the inverse of Join on newline-free pieces. */
  lemma {:induction false} SplitJoin(ps: seq<string>)
    requires |ps| >= 1
    requires forall k :: 0 <= k < |ps| ==> Newline !in ps[k]
    ensures Split(Join(ps)) == ps
  {
    if |ps| == 1 {
      SplitNoNewline(ps[0]);
    } else {
      SplitJoin(ps[1..]);
      SplitAt(ps[0], Join(ps[1..]));
      SplitNoNewline(ps[0]);
      assert [ps[0]] + ps[1..] == ps;
    }
  }

  // ---------------------------------------------------------------------------
  // Lines each terminated by "\n", as written by `WriteString(line + "\n")`

  /** The text of `lines`, each followed by "\n". */
  function Unlines(lines: seq<string>): string
  {
    if |lines| == 0 then "" else lines[0] + [Newline] + Unlines(lines[1..])
  }

  lemma {:induction false} UnlinesAppend(a: seq<string>, b: seq<string>)
    ensures Unlines(a + b) == Unlines(a) + Unlines(b)
  {
    if |a| > 0 {
      assert (a + b)[1..] == a[1..] + b;
      UnlinesAppend(a[1..], b);
    } else {
      assert a + b == b;
    }
  }

  /** Reading back newline-terminated lines gives the lines and a final empty piece. */
  lemma {:induction false} SplitUnlines(lines: seq<string>)
    requires forall k :: 0 <= k < |lines| ==> Newline !in lines[k]
    ensures Split(Unlines(lines)) == lines + [""]
  {
    if |lines| > 0 {
      SplitUnlines(lines[1..]);
      SplitAt(lines[0], Unlines(lines[1..]));
      SplitNoNewline(lines[0]);
      assert [lines[0]] + (lines[1..] + [""]) == lines + [""];
    }
  }

  // ---------------------------------------------------------------------------
  // strings.TrimSpace

  /** The white-space characters `strings.TrimSpace` removes (ASCII part). */
  predicate IsSpace(c: char)
  {
    c == ' ' || c == '\t' || c == '\n' || c == '\U{B}' || c == '\U{C}' || c == '\r'
  }

  predicate AllSpace(s: string)
  {
    forall i :: 0 <= i < |s| ==> IsSpace(s[i])
  }

  /** Drops leading white space. */
  function TrimLeft(s: string): string
  {
    if |s| > 0 && IsSpace(s[0]) then TrimLeft(s[1..]) else s
  }

  /** What TrimLeft leaves is a suffix, what it drops is white space, and it starts with no white space. */
  lemma {:induction false} TrimLeftSuffix(s: string)
    ensures |TrimLeft(s)| <= |s| && TrimLeft(s) == s[|s| - |TrimLeft(s)|..]
    ensures AllSpace(s[..|s| - |TrimLeft(s)|])
    ensures TrimLeft(s) == [] || !IsSpace(TrimLeft(s)[0])
  {
    if |s| > 0 && IsSpace(s[0]) {
      var rest := s[1..];
      TrimLeftSuffix(rest);
      var t := TrimLeft(rest);
      assert TrimLeft(s) == t;
      var n := |s| - |t|;
      assert s[n..] == rest[n - 1..];
      forall i | 0 <= i < n
        ensures IsSpace(s[..n][i])
      {
        if i > 0 {
          assert s[..n][i] == rest[..n - 1][i - 1];
        }
      }
    }
  }

  /** Drops trailing white space. */
  function TrimRight(s: string): string
  {
    if |s| > 0 && IsSpace(s[|s| - 1]) then TrimRight(s[..|s| - 1]) else s
  }

  /** What TrimRight leaves is a prefix, what it drops is white space, and it ends with no white space. */
  lemma {:induction false} TrimRightPrefix(s: string)
    ensures |TrimRight(s)| <= |s| && TrimRight(s) == s[..|TrimRight(s)|]
    ensures AllSpace(s[|TrimRight(s)|..])
    ensures TrimRight(s) == [] || !IsSpace(TrimRight(s)[|TrimRight(s)| - 1])
  {
    if |s| > 0 && IsSpace(s[|s| - 1]) {
      var init := s[..|s| - 1];
      TrimRightPrefix(init);
      var t := TrimRight(init);
      assert TrimRight(s) == t;
      var n := |t|;
      assert s[..n] == init[..n];
      forall i | 0 <= i < |s| - n
        ensures IsSpace(s[n..][i])
      {
        if n + i < |s| - 1 {
          assert s[n..][i] == init[n..][i];
        }
      }
    }
  }

  /** Neither starts nor ends with white space. */
  predicate Trimmed(s: string)
  {
    s == [] || (!IsSpace(s[0]) && !IsSpace(s[|s| - 1]))
  }

  /**
   * `strings.TrimSpace`: removes white space at both ends, so the result
   * neither starts nor ends with white space (TrimSpaceSlice says what is removed).
   */
  function TrimSpace(s: string): (r: string)
    ensures Trimmed(r)
  {
    TrimLeftSuffix(s);
    TrimRightPrefix(TrimLeft(s));
    TrimRight(TrimLeft(s))
  }

  /** The trimmed string is a slice of the original with only white space cut off each end. */
  lemma TrimSpaceSlice(s: string)
    ensures exists i, j :: 0 <= i <= j <= |s| && TrimSpace(s) == s[i..j] && AllSpace(s[..i]) && AllSpace(s[j..])
  {
    var l := TrimLeft(s);
    TrimLeftSuffix(s);
    TrimRightPrefix(l);
    var r := TrimRight(l);
    var i := |s| - |l|;
    assert r == s[i..i + |r|];
    assert s[i + |r|..] == l[|r|..];
  }

  /** Trimming a string that is already trimmed changes nothing. */
  lemma TrimmedUnchanged(s: string)
    requires Trimmed(s)
    ensures TrimSpace(s) == s
  {
    if |s| > 0 {
      assert TrimLeft(s) == s;
      assert TrimRight(s) == s;
    }
  }

  /** Trimming is idempotent. */
  lemma TrimSpaceIdempotent(s: string)
    ensures TrimSpace(TrimSpace(s)) == TrimSpace(s)
  {
    TrimmedUnchanged(TrimSpace(s));
  }

  /** Trimming only removes characters, so a newline-free line stays newline-free. */
  lemma TrimSpaceNoNewline(s: string)
    requires Newline !in s
    ensures Newline !in TrimSpace(s)
  {
    TrimSpaceSlice(s);
    var i, j :| 0 <= i <= j <= |s| && TrimSpace(s) == s[i..j];
    assert forall k :: 0 <= k < j - i ==> s[i..j][k] == s[i + k];
  }

  // ---------------------------------------------------------------------------
  // strings.HasPrefix and strings.Contains

  /** `strings.HasPrefix(s, p)`: `s` begins with `p`, character by character. */
  predicate HasPrefix(s: string, p: string)
    ensures HasPrefix(s, p) <==> |p| <= |s| && forall i :: 0 <= i < |p| ==> s[i] == p[i]
  {
    |p| <= |s| && s[..|p|] == p
  }

  /** Appending keeps what was there as a prefix. */
  lemma PrefixKept(head: string, tail: string)
    ensures HasPrefix(head + tail, head)
  {
    assert (head + tail)[..|head|] == head;
  }

  /** `strings.Contains(s, p)`: `p` occurs in `s`, scanning start positions left to right. */
  predicate Contains(s: string, p: string)
    ensures |p| == 0 ==> Contains(s, p)
    ensures Contains(s, p) ==> |p| <= |s|
  {
    HasPrefix(s, p) || (|s| > 0 && Contains(s[1..], p))
  }

  /** Contains means an occurrence at some position of `s`. */
  lemma {:induction false} ContainsAt(s: string, p: string)
    ensures Contains(s, p) <==> exists i :: 0 <= i <= |s| && HasPrefix(s[i..], p)
  {
    assert s[0..] == s;
    if |s| > 0 {
      ContainsAt(s[1..], p);
      if Contains(s, p) && !HasPrefix(s, p) {
        var i :| 0 <= i <= |s| - 1 && HasPrefix(s[1..][i..], p);
        assert s[1..][i..] == s[i + 1..];
        assert HasPrefix(s[i + 1..], p);
      }
      if exists i :: 0 <= i <= |s| && HasPrefix(s[i..], p) {
        var i :| 0 <= i <= |s| && HasPrefix(s[i..], p);
        if i > 0 {
          assert s[1..][i - 1..] == s[i..];
        }
      }
    }
  }

  // ---------------------------------------------------------------------------
  // Byte-wise lexicographic order of Go strings (`a < b`, used by sort.Strings)

  /** `a < b` on Go strings: first differing byte decides, a proper prefix is smaller. */
  predicate Less(a: string, b: string)
    ensures Less(a, b) ==> a != b
    ensures HasPrefix(b, a) && |a| < |b| ==> Less(a, b)
  {
    if |a| == 0 then |b| > 0
    else if |b| == 0 then false
    else if a[0] != b[0] then a[0] < b[0]
    else Less(a[1..], b[1..])
  }

  /** Past a common prefix, the first differing character decides the order. */
  lemma {:induction false} LessFirstDifference(a: string, b: string, i: nat)
    requires i < |a| && i < |b| && a[..i] == b[..i] && a[i] != b[i]
    ensures Less(a, b) <==> a[i] < b[i]
  {
    if i > 0 {
      assert a[0] == a[..i][0] && b[0] == b[..i][0];
      assert a[1..][..i - 1] == a[..i][1..] && b[1..][..i - 1] == b[..i][1..];
      LessFirstDifference(a[1..], b[1..], i - 1);
    }
  }

  lemma {:induction false} LessIrreflexive(a: string)
    ensures !Less(a, a)
  {
    if |a| > 0 {
      LessIrreflexive(a[1..]);
    }
  }

  lemma {:induction false} LessAsymmetric(a: string, b: string)
    ensures Less(a, b) ==> !Less(b, a)
  {
    if |a| > 0 && |b| > 0 && a[0] == b[0] {
      LessAsymmetric(a[1..], b[1..]);
    }
  }

  lemma {:induction false} LessTransitive(a: string, b: string, c: string)
    requires Less(a, b) && Less(b, c)
    ensures Less(a, c)
  {
    if |a| > 0 && a[0] == b[0] && b[0] == c[0] {
      LessTransitive(a[1..], b[1..], c[1..]);
    }
  }

  /** Any two different strings are ordered one way or the other. */
  lemma {:induction false} LessTotal(a: string, b: string)
    requires a != b
    ensures Less(a, b) || Less(b, a)
  {
    if |a| > 0 && |b| > 0 && a[0] == b[0] {
      assert a == [a[0]] + a[1..] && b == [b[0]] + b[1..];
      LessTotal(a[1..], b[1..]);
    }
  }

  // ---------------------------------------------------------------------------
  // strings.Builder

  /** `strings.Builder`: an append-only text buffer. */
  class Builder {
    var buf: string

    constructor ()
      ensures buf == ""
    {
      buf := "";
    }

    /** `WriteString` (and `Write` of a byte slice): appends `s`. */
    method WriteString(s: string)
      modifies this
      ensures buf == old(buf) + s
    {
      buf := buf + s;
    }

    /** `String`: the text written so far. */
    function String(): string
      reads this
    {
      buf
    }
  }
}
