/**
 * The blocklist pipeline of aeigo: load source lists, merge the downloaded
 * lists, extract the domains, and build the hosts file that maps each
 * blacklisted domain to the block address. File contents, download results
 * and the generation timestamp are inputs.
 */
module Blocklist {
  import opened Wrappers
  import opened GoStrings
  import opened Sorting

  /** The address every blocked domain is mapped to. */
  const BlockIP: string := "0.0.0.0"

  // The fixed comments are written as short pieces, which keeps facts about
  // their individual characters cheap to establish.

  /** The comment written in place of the user's hosts when they could not be read. */
  const FallbackComment: string := "# Original user " + "hosts not found " + "or couldn't be " + "read"

  /** Written in place of the user's hosts when they could not be read. */
  const FallbackHosts: string := FallbackComment + [Newline]

  /** First line of the generated header, without its newline. */
  function GeneratedComment(timestamp: string): string
  {
    "# Ad blocking " + "hosts generated " + timestamp
  }

  /** Second line of the generated header, without its newline. */
  const WarningComment: string := "# Don't write " + "below this line. " + "It will be lost " + "if you run aeigo " + "again."

  /** A comment line never starts with the block address. */
  lemma CommentNotBlocked(line: string)
    requires |line| > 0 && line[0] == '#'
    ensures !HasPrefix(line, BlockIP)
  {
    if |BlockIP| <= |line| {
      assert line[..|BlockIP|][0] != BlockIP[0];
    }
  }

  // ---------------------------------------------------------------------------
  // readSourcesFromFile

  /** What became of the sources file: absent, present but not openable, or scanned into lines. */
  datatype SourcesFile = Missing | Unopenable | Scanned(lines: seq<string>)

  /** The trimmed, non-empty lines of a sources file, in file order. */
  function SourceLines(lines: seq<string>): (r: seq<string>)
    ensures |r| <= |lines|
    ensures forall k :: 0 <= k < |r| ==> |r[k]| > 0 && Trimmed(r[k])
  {
    if |lines| == 0 then []
    else
      var source := TrimSpace(lines[|lines| - 1]);
      SourceLines(lines[..|lines| - 1]) + if |source| > 0 then [source] else []
  }

  /** A string is kept exactly when it is the non-empty trimmed form of some line. */
  lemma {:induction false} SourceLinesMembers(lines: seq<string>, x: string)
    ensures x in SourceLines(lines) <==> |x| > 0 && exists k :: 0 <= k < |lines| && TrimSpace(lines[k]) == x
  {
    if |lines| > 0 {
      var init := lines[..|lines| - 1];
      SourceLinesMembers(init, x);
      if exists k :: 0 <= k < |init| && TrimSpace(init[k]) == x {
        var k :| 0 <= k < |init| && TrimSpace(init[k]) == x;
        assert lines[k] == init[k];
      }
      if exists k :: 0 <= k < |lines| && TrimSpace(lines[k]) == x {
        var k :| 0 <= k < |lines| && TrimSpace(lines[k]) == x;
        if k < |init| {
          assert init[k] == lines[k];
        }
      }
    }
  }

  /** Filtering keeps file order: the lines of a concatenation filter piecewise. */
  lemma {:induction false} SourceLinesAppend(a: seq<string>, b: seq<string>)
    ensures SourceLines(a + b) == SourceLines(a) + SourceLines(b)
  {
    if |b| == 0 {
      assert a + b == a;
    } else {
      assert (a + b)[..|a + b| - 1] == a + b[..|b| - 1];
      SourceLinesAppend(a, b[..|b| - 1]);
    }
  }

  /** The sources a file contributes. */
  function FileSources(file: SourcesFile): seq<string>
  {
    if file.Scanned? then SourceLines(file.lines) else []
  }

  /**
   * `readSourcesFromFile`: appends the file's trimmed non-empty lines to
   * `sources`; an absent or unopenable file leaves `sources` as it was.
   */
  method ReadSourcesFromFile(file: SourcesFile, sources: seq<string>) returns (r: seq<string>)
    ensures file.Scanned? ==> r == sources + SourceLines(file.lines)
    ensures !file.Scanned? ==> r == sources
  {
    r := sources;
    if file.Missing? {
      return;
    }
    if file.Unopenable? {
      return;
    }
    var lines := file.lines;
    for i := 0 to |lines|
      invariant r == sources + SourceLines(lines[..i])
    {
      var source := TrimSpace(lines[i]);
      assert lines[..i + 1][..i] == lines[..i];
      if |source| > 0 {
        r := r + [source];
      }
    }
    assert lines[..|lines|] == lines;
  }

  // ---------------------------------------------------------------------------
  // downloadAndMergeSources

  /** The bodies downloaded for `sources`, in order; a failed download contributes "". */
  function Merged(sources: seq<string>, download: string -> Option<string>): string
  {
    if |sources| == 0 then ""
    else Merged(sources[..|sources| - 1], download) + download(sources[|sources| - 1]).GetOr("")
  }

  lemma {:induction false} MergedAppend(a: seq<string>, b: seq<string>, download: string -> Option<string>)
    ensures Merged(a + b, download) == Merged(a, download) + Merged(b, download)
  {
    if |b| == 0 {
      assert a + b == a;
    } else {
      assert (a + b)[..|a + b| - 1] == a + b[..|b| - 1];
      MergedAppend(a, b[..|b| - 1], download);
    }
  }

  /** A source whose download failed changes nothing in the merged text. */
  lemma FailedSourceIgnored(a: seq<string>, u: string, b: seq<string>, download: string -> Option<string>)
    requires download(u).None?
    ensures Merged(a + [u] + b, download) == Merged(a + b, download)
  {
    MergedAppend(a + [u], b, download);
    MergedAppend(a, [u], download);
    MergedAppend(a, b, download);
    assert [u][..0] == [];
  }

  /** When every download fails the merged text is empty. */
  lemma {:induction false} AllFailedMergedEmpty(sources: seq<string>, download: string -> Option<string>)
    requires forall k :: 0 <= k < |sources| ==> download(sources[k]).None?
    ensures Merged(sources, download) == ""
  {
    if |sources| > 0 {
      AllFailedMergedEmpty(sources[..|sources| - 1], download);
    }
  }

  /** `downloadAndMergeSources`: the downloaded bodies written one after another. */
  method DownloadAndMergeSources(sources: seq<string>, download: string -> Option<string>) returns (merged: string)
    ensures merged == Merged(sources, download)
  {
    var mergedDomains := new Builder();
    for i := 0 to |sources|
      invariant mergedDomains.buf == Merged(sources[..i], download)
    {
      var downloadedDomains := download(sources[i]).GetOr("");
      mergedDomains.WriteString(downloadedDomains);
      assert sources[..i + 1][..i] == sources[..i];
    }
    assert sources[..|sources|] == sources;
    merged := mergedDomains.String();
  }

  // ---------------------------------------------------------------------------
  // extractDomains

  /** A trimmed line that names a domain: not empty and not a `#` comment. */
  predicate IsDomainLine(t: string)
  {
    |t| > 0 && !HasPrefix(t, "#")
  }

  /** The distinct domains named by `lines` (the keys of `domainsSet`). */
  function DomainSet(lines: seq<string>): set<string>
  {
    if |lines| == 0 then {}
    else
      var t := TrimSpace(lines[|lines| - 1]);
      DomainSet(lines[..|lines| - 1]) + if IsDomainLine(t) then {t} else {}
  }

  /**
   * A string is an extracted domain exactly when some line trims to it and it
   * is neither empty nor a `#` comment.
   */
  lemma {:induction false} DomainSetMembers(lines: seq<string>, d: string)
    ensures d in DomainSet(lines) <==> IsDomainLine(d) && exists k :: 0 <= k < |lines| && TrimSpace(lines[k]) == d
  {
    if |lines| > 0 {
      var init := lines[..|lines| - 1];
      DomainSetMembers(init, d);
      if exists k :: 0 <= k < |init| && TrimSpace(init[k]) == d {
        var k :| 0 <= k < |init| && TrimSpace(init[k]) == d;
        assert lines[k] == init[k];
      }
      if exists k :: 0 <= k < |lines| && TrimSpace(lines[k]) == d {
        var k :| 0 <= k < |lines| && TrimSpace(lines[k]) == d;
        if k < |init| {
          assert init[k] == lines[k];
        }
      }
    }
  }

  /** Domains taken from newline-free lines are newline-free and already trimmed. */
  lemma DomainSetClean(lines: seq<string>)
    requires forall k :: 0 <= k < |lines| ==> Newline !in lines[k]
    ensures forall d :: d in DomainSet(lines) ==> Newline !in d && Trimmed(d)
  {
    forall d | d in DomainSet(lines)
      ensures Newline !in d && Trimmed(d)
    {
      DomainSetMembers(lines, d);
      var k :| 0 <= k < |lines| && TrimSpace(lines[k]) == d;
      TrimSpaceNoNewline(lines[k]);
    }
  }

  /**
   * `extractDomains`: the distinct domains of the text, one per non-blank,
   * non-comment line, in strictly ascending order.
   */
  method ExtractDomains(domains: string) returns (extracted: seq<string>)
    ensures StrictlyAscending(extracted)
    ensures forall d :: d in extracted <==> d in DomainSet(Split(domains))
    ensures forall d :: d in extracted ==> Newline !in d && Trimmed(d)
  {
    var domainsSet: map<string, bool> := map[];
    var lines := Split(domains);
    for i := 0 to |lines|
      invariant domainsSet.Keys == DomainSet(lines[..i])
    {
      var line := TrimSpace(lines[i]);
      assert lines[..i + 1][..i] == lines[..i];
      if |line| > 0 && !HasPrefix(line, "#") {
        domainsSet := domainsSet[line := true];
      }
    }
    assert lines[..|lines|] == lines;
    SplitPieces(domains);
    DomainSetClean(lines);

    // ranging over a Go map visits its keys in an unspecified order
    extracted := [];
    var remaining := domainsSet.Keys;
    while remaining != {}
      invariant remaining <= domainsSet.Keys
      invariant forall d :: d in extracted <==> d in domainsSet.Keys && d !in remaining
      invariant Distinct(extracted)
      decreases remaining
    {
      var domain :| domain in remaining;
      extracted := extracted + [domain];
      remaining := remaining - {domain};
    }

    var a := new string[|extracted|](k requires 0 <= k < |extracted| => extracted[k]);
    assert a[..] == extracted;
    SortStrings(a);
    DistinctPermutation(extracted, a[..]);
    SortedDistinctAscending(a[..]);
    assert forall d :: d in a[..] <==> d in multiset(extracted);
    extracted := a[..];
  }

  /** What ExtractDomains promises fixes the result's length: one element per distinct domain. */
  lemma ExtractedCount(domains: string, extracted: seq<string>)
    requires StrictlyAscending(extracted)
    requires forall d :: d in extracted <==> d in DomainSet(Split(domains))
    ensures |extracted| == |DomainSet(Split(domains))|
  {
    AscendingDistinct(extracted);
    DistinctCardinality(extracted);
    assert (set d | d in extracted) == DomainSet(Split(domains));
  }

  // ---------------------------------------------------------------------------
  // countBlockedWebsites

  /** The number of lines starting with the block address. */
  function CountBlocked(lines: seq<string>): nat
  {
    if |lines| == 0 then 0
    else CountBlocked(lines[..|lines| - 1]) + if HasPrefix(lines[|lines| - 1], BlockIP) then 1 else 0
  }

  /** The lines counted, as a set of positions. */
  function BlockedPositions(lines: seq<string>): set<int>
  {
    set k | 0 <= k < |lines| && HasPrefix(lines[k], BlockIP)
  }

  /** The count is the number of positions holding a block line. */
  lemma {:induction false} CountBlockedPositions(lines: seq<string>)
    ensures CountBlocked(lines) == |BlockedPositions(lines)|
  {
    if |lines| > 0 {
      var n := |lines| - 1;
      CountBlockedPositions(lines[..n]);
      var before := BlockedPositions(lines[..n]);
      if HasPrefix(lines[n], BlockIP) {
        assert BlockedPositions(lines) == before + {n};
      } else {
        assert BlockedPositions(lines) == before;
      }
    } else {
      assert BlockedPositions(lines) == {};
    }
  }

  lemma {:induction false} CountBlockedAppend(a: seq<string>, b: seq<string>)
    ensures CountBlocked(a + b) == CountBlocked(a) + CountBlocked(b)
  {
    if |b| == 0 {
      assert a + b == a;
    } else {
      assert (a + b)[..|a + b| - 1] == a + b[..|b| - 1];
      CountBlockedAppend(a, b[..|b| - 1]);
    }
  }

  /** `countBlockedWebsites`: the "\n"-separated lines of the text that start with the block address. */
  method CountBlockedWebsites(hostsContent: string) returns (counter: int)
    ensures counter == CountBlocked(Split(hostsContent))
  {
    var lines := Split(hostsContent);
    counter := 0;
    for i := 0 to |lines|
      invariant counter == CountBlocked(lines[..i])
    {
      assert lines[..i + 1][..i] == lines[..i];
      if HasPrefix(lines[i], BlockIP) {
        counter := counter + 1;
      }
    }
    assert lines[..|lines|] == lines;
  }

  // ---------------------------------------------------------------------------
  // buildFinalHostsFile

  /** The hosts-file line that blocks `domain`. */
  function EntryLine(domain: string): string
  {
    BlockIP + " " + domain
  }

  /** One block line per domain, in the given order. */
  function EntryLines(domains: seq<string>): (r: seq<string>)
    ensures |r| == |domains|
    ensures forall k :: 0 <= k < |r| ==> r[k] == EntryLine(domains[k])
  {
    if |domains| == 0 then []
    else EntryLines(domains[..|domains| - 1]) + [EntryLine(domains[|domains| - 1])]
  }

  /** The prior content kept at the head of the file. */
  function PriorContent(userHosts: Option<string>): string
  {
    userHosts.GetOr(FallbackHosts)
  }

  /** A blank line, two comment lines, and a blank line. */
  function CommentBlock(comment: string, warning: string): string
  {
    ([Newline] + comment + [Newline]) + (warning + [Newline] + [Newline])
  }

  /** The comment block written after the prior content. */
  function GeneratedHeader(timestamp: string): string
  {
    CommentBlock(GeneratedComment(timestamp), WarningComment)
  }

  /** The first header write, up to the timestamp. */
  const GeneratedWrite: string := "\n# Ad blocking hosts generated "

  /** The second header write: the warning line and a blank line. */
  const WarningWrite: string := "# Don't write below this line. " + "It will be lost if you run aeigo " + "again.\n\n"

  /**
   * The header is exactly the text of the two writes of buildFinalHostsFile:
   * `GeneratedWrite + timestamp + "\n"`, then `WarningWrite`.
   */
  lemma GeneratedHeaderText(timestamp: string)
    ensures GeneratedHeader(timestamp) == GeneratedWrite + timestamp + "\n" + WarningWrite
  {
    GeneratedWriteText();
    WarningWriteText();
    HeaderShape("# Ad blocking " + "hosts generated ", timestamp, WarningComment);
  }

  lemma GeneratedWriteText()
    ensures [Newline] + ("# Ad blocking " + "hosts generated ") == GeneratedWrite
  {
  }

  lemma WarningWriteText()
    ensures WarningComment + [Newline] + [Newline] == WarningWrite
  {
    WarningFirstHalf();
    WarningSecondHalf();
    WarningEnd();
    WarningRegroup("# Don't write ", "below this line. ", "It will be lost ", "if you run aeigo ", "again.", [Newline]);
  }

  lemma WarningFirstHalf()
    ensures "# Don't write " + "below this line. " == "# Don't write below this line. "
  {
  }

  lemma WarningSecondHalf()
    ensures "It will be lost " + "if you run aeigo " == "It will be lost if you run aeigo "
  {
  }

  lemma WarningEnd()
    ensures "again." + [Newline] + [Newline] == "again.\n\n"
  {
  }

  /** The five pieces of the warning and its two newlines, grouped as the written text is. */
  lemma WarningRegroup(a: string, b: string, c: string, d: string, e: string, nl: string)
    ensures a + b + c + d + e + nl + nl == (a + b) + (c + d) + (e + nl + nl)
  {
  }

  /** The comment block around a comment that ends in the timestamp, regrouped as it is written. */
  lemma HeaderShape(head: string, timestamp: string, warning: string)
    ensures CommentBlock(head + timestamp, warning)
         == ([Newline] + head) + timestamp + "\n" + (warning + [Newline] + [Newline])
  {
    assert [Newline] + (head + timestamp) + [Newline] == ([Newline] + head) + timestamp + "\n";
  }

  /** The generated-on comment is a single line starting with `#`. */
  lemma GeneratedCommentLine(timestamp: string)
    requires Newline !in timestamp
    ensures Newline !in GeneratedComment(timestamp) && GeneratedComment(timestamp)[0] == '#'
  {
  }

  /** The warning comment is a single line starting with `#`. */
  lemma WarningCommentLine()
    ensures Newline !in WarningComment && WarningComment[0] == '#'
  {
  }

  /** Writing one more block line extends the written entries by that line. */
  lemma EntriesStep(blacklist: seq<string>, i: int)
    requires 0 <= i < |blacklist|
    ensures Unlines(EntryLines(blacklist[..i + 1])) == Unlines(EntryLines(blacklist[..i])) + (BlockIP + " " + blacklist[i] + "\n")
  {
    var written := EntryLines(blacklist[..i]);
    assert blacklist[..i + 1][..i] == blacklist[..i];
    assert EntryLines(blacklist[..i + 1]) == written + [EntryLine(blacklist[i])];
    UnlinesAppend(written, [EntryLine(blacklist[i])]);
    assert [EntryLine(blacklist[i])][1..] == [];
  }

  /** Concatenation regroups freely; stated once so that long chains of appends stay cheap to compare. */
  lemma Regroup(a: string, b: string, c: string)
    ensures (a + b) + c == a + (b + c)
  {
  }

  /**
   * `buildFinalHostsFile`: the prior content (or the fallback comment), the
   * generated header, then one block line per blacklisted domain in order.
   * The whitelist is not consulted.
   */
  method BuildFinalHostsFile(blacklist: seq<string>, whitelist: seq<string>, userHosts: Option<string>, timestamp: string)
    returns (finalHosts: string)
    ensures finalHosts == PriorContent(userHosts) + GeneratedHeader(timestamp) + Unlines(EntryLines(blacklist))
  {
    var builder := new Builder();
    if userHosts.None? {
      builder.WriteString(FallbackHosts);
    } else {
      builder.WriteString(userHosts.value);
    }
    ghost var prior := builder.buf;
    assert prior == PriorContent(userHosts);
    builder.WriteString(GeneratedWrite + timestamp + "\n");
    builder.WriteString(WarningWrite);
    ghost var head := builder.buf;
    GeneratedHeaderText(timestamp);
    Regroup(prior, GeneratedWrite + timestamp + "\n", WarningWrite);
    assert head == PriorContent(userHosts) + GeneratedHeader(timestamp);
    for i := 0 to |blacklist|
      invariant builder.buf == head + Unlines(EntryLines(blacklist[..i]))
    {
      EntriesStep(blacklist, i);
      builder.WriteString(BlockIP + " " + blacklist[i] + "\n");
      Regroup(head, Unlines(EntryLines(blacklist[..i])), BlockIP + " " + blacklist[i] + "\n");
    }
    assert blacklist[..|blacklist|] == blacklist;
    finalHosts := builder.String();
  }

  /** Every block line starts with the block address. */
  lemma {:induction false} CountEntryLines(domains: seq<string>)
    ensures CountBlocked(EntryLines(domains)) == |domains|
  {
    if |domains| > 0 {
      var n := |domains| - 1;
      CountEntryLines(domains[..n]);
      assert EntryLines(domains)[..n] == EntryLines(domains[..n]);
      assert EntryLines(domains)[n][..|BlockIP|] == BlockIP;
    }
  }

  /**
   * Read back line by line, the built file is the prior content's lines, the
   * two header comments, an empty line, one block line per domain, and the
   * empty piece after the final newline.
   */
  lemma HostsFileLines(prior: string, timestamp: string, blacklist: seq<string>)
    requires Newline !in timestamp
    requires forall k :: 0 <= k < |blacklist| ==> Newline !in blacklist[k]
    ensures Split(prior + GeneratedHeader(timestamp) + Unlines(EntryLines(blacklist)))
         == Split(prior) + [GeneratedComment(timestamp), WarningComment, ""] + EntryLines(blacklist) + [""]
  {
    var lines := EntryLines(blacklist);
    forall k | 0 <= k < |lines|
      ensures Newline !in lines[k]
    {
      EntryLineNoNewline(blacklist[k]);
    }
    SplitUnlines(lines);
    GeneratedCommentLine(timestamp);
    WarningCommentLine();
    HeaderSplit(prior, GeneratedComment(timestamp), WarningComment, Unlines(lines));
  }

  lemma EntryLineNoNewline(domain: string)
    requires Newline !in domain
    ensures Newline !in EntryLine(domain)
  {
  }

  /** The layout of the header, for any prior content, comment lines and body. */
  lemma HeaderSplit(prior: string, comment: string, warning: string, body: string)
    requires Newline !in comment && Newline !in warning
    ensures Split(prior + CommentBlock(comment, warning) + body)
         == Split(prior) + [comment, warning, ""] + Split(body)
  {
    var blank := "" + [Newline] + body;
    SplitLine("", body);
    var rest := warning + [Newline] + blank;
    SplitLine(warning, blank);
    var generated := comment + [Newline] + rest;
    SplitLine(comment, rest);
    SplitAt(prior, generated);
    // regroup the concatenation to expose the separators one at a time
    var nl := [Newline];
    var header, tail := (nl + comment + nl), (warning + nl + nl);
    assert "" + nl + body == nl + body;
    Regroup(warning + nl, nl, body);
    assert tail + body == rest;
    Regroup(nl + comment, nl, rest);
    Regroup(nl, comment, nl + rest);
    Regroup(comment, nl, rest);
    assert header + rest == nl + generated;
    Regroup(header, tail, body);
    Regroup(prior, header + tail, body);
    Regroup(prior, nl, generated);
    HeaderLayout(Split(prior), comment, warning, Split(body));
  }

  /** The pieces, exposed one at a time, line up as the prior lines, three header lines, and the body lines. */
  lemma HeaderLayout(prior: seq<string>, comment: string, warning: string, body: seq<string>)
    ensures prior + ([comment] + ([warning] + ([""] + body))) == prior + [comment, warning, ""] + body
  {
  }

  /** Two comment lines and an empty line hold no block line. */
  lemma CommentsCountNothing(comment: string, warning: string)
    requires |comment| > 0 && comment[0] == '#'
    requires |warning| > 0 && warning[0] == '#'
    ensures CountBlocked([comment, warning, ""]) == 0
  {
    CommentNotBlocked(comment);
    CommentNotBlocked(warning);
    var header := [comment, warning, ""];
    assert header[..2] == [comment, warning];
    assert header[..2][..1] == [comment];
    assert [comment][..0] == [];
    assert CountBlocked([comment]) == 0;
    assert CountBlocked([comment, warning]) == 0;
  }

  /**
   * With newline-free domains and timestamp, the built file holds as many block
   * lines as the prior content plus one per blacklisted domain: the header adds none.
   */
  lemma HostsFileCount(prior: string, timestamp: string, blacklist: seq<string>)
    requires Newline !in timestamp
    requires forall k :: 0 <= k < |blacklist| ==> Newline !in blacklist[k]
    ensures CountBlocked(Split(prior + GeneratedHeader(timestamp) + Unlines(EntryLines(blacklist))))
         == CountBlocked(Split(prior)) + |blacklist|
  {
    var header := [GeneratedComment(timestamp), WarningComment, ""];
    HostsFileLines(prior, timestamp, blacklist);
    CountBlockedAppend(Split(prior) + header + EntryLines(blacklist), [""]);
    CountBlockedAppend(Split(prior) + header, EntryLines(blacklist));
    CountBlockedAppend(Split(prior), header);
    CountEntryLines(blacklist);
    GeneratedCommentLine(timestamp);
    WarningCommentLine();
    CommentsCountNothing(GeneratedComment(timestamp), WarningComment);
  }

  /** A single comment line followed by a newline holds no block line. */
  lemma CommentLineCountsNothing(comment: string)
    requires Newline !in comment && |comment| > 0 && comment[0] == '#'
    ensures CountBlocked(Split(comment + [Newline])) == 0
  {
    assert comment + [Newline] == comment + [Newline] + "";
    SplitLine(comment, "");
    CommentNotBlocked(comment);
    assert [comment, ""][..1] == [comment];
    assert [comment][..0] == [];
    assert CountBlocked([comment]) == 0;
  }

  /** The fallback comment holds no block line. */
  lemma FallbackCountsNothing()
    ensures CountBlocked(Split(FallbackHosts)) == 0
  {
    assert Newline !in FallbackComment;
    CommentLineCountsNothing(FallbackComment);
  }

  /**
   * Building again from a file this tool wrote keeps that whole file as the
   * prior content and appends a second generated block: the block count grows
   * by the blacklist's length on every run instead of staying the same.
   */
  lemma RebuildAppends(previous: string, timestamp: string, blacklist: seq<string>)
    requires Newline !in timestamp
    requires forall k :: 0 <= k < |blacklist| ==> Newline !in blacklist[k]
    ensures var again := PriorContent(Some(previous)) + GeneratedHeader(timestamp) + Unlines(EntryLines(blacklist));
      HasPrefix(again, previous) && CountBlocked(Split(again)) == CountBlocked(Split(previous)) + |blacklist|
  {
    HostsFileCount(previous, timestamp, blacklist);
  }

  // ---------------------------------------------------------------------------
  // downloadAndBuildBlocklists

  /**
   * `file` is `prior`, the generated header, and one block line for each
   * domain of `domains` in ascending order (by `AscendingUnique` there is
   * only one such order).
   */
  ghost predicate GeneratedFrom(file: string, prior: string, timestamp: string, domains: set<string>)
  {
    exists ds ::
      && StrictlyAscending(ds)
      && (forall d :: d in ds <==> d in domains)
      && file == prior + GeneratedHeader(timestamp) + Unlines(EntryLines(ds))
  }

  /** What the pipeline promises of the file built from the extracted domains of `domains`. */
  lemma BuiltFileFacts(prior: string, timestamp: string, domains: string, extracted: seq<string>, file: string)
    requires Newline !in timestamp
    requires StrictlyAscending(extracted)
    requires forall d :: d in extracted <==> d in DomainSet(Split(domains))
    requires forall d :: d in extracted ==> Newline !in d
    requires file == prior + GeneratedHeader(timestamp) + Unlines(EntryLines(extracted))
    ensures HasPrefix(file, prior)
    ensures GeneratedFrom(file, prior, timestamp, DomainSet(Split(domains)))
    ensures CountBlocked(Split(file)) == CountBlocked(Split(prior)) + |DomainSet(Split(domains))|
  {
    Regroup(prior, GeneratedHeader(timestamp), Unlines(EntryLines(extracted)));
    PrefixKept(prior, GeneratedHeader(timestamp) + Unlines(EntryLines(extracted)));
    HostsFileCount(prior, timestamp, extracted);
    ExtractedCount(domains, extracted);
  }

  /**
   * `downloadAndBuildBlocklists`, up to writing the file: returns the content
   * written and the count reported. The prior content stays at the head of the
   * file, and the count is the prior content's block lines plus one per
   * distinct blacklisted domain.
   */
  method DownloadAndBuildBlocklists(blacklistFile: SourcesFile, whitelistFile: SourcesFile,
                                    download: string -> Option<string>, userHosts: Option<string>, timestamp: string)
    returns (finalHosts: string, websitesBlocked: int)
    requires Newline !in timestamp
    ensures HasPrefix(finalHosts, PriorContent(userHosts))
    ensures GeneratedFrom(finalHosts, PriorContent(userHosts), timestamp,
                          DomainSet(Split(Merged(FileSources(blacklistFile), download))))
    ensures websitesBlocked == CountBlocked(Split(PriorContent(userHosts)))
                               + |DomainSet(Split(Merged(FileSources(blacklistFile), download)))|
  {
    var blacklistSources := ReadSourcesFromFile(blacklistFile, []);
    var whitelistSources := ReadSourcesFromFile(whitelistFile, []);

    var blacklistDomains := DownloadAndMergeSources(blacklistSources, download);
    var whitelistDomains := DownloadAndMergeSources(whitelistSources, download);

    var extractedBlacklistDomains := ExtractDomains(blacklistDomains);
    var extractedWhitelistDomains := ExtractDomains(whitelistDomains);

    finalHosts := BuildFinalHostsFile(extractedBlacklistDomains, extractedWhitelistDomains, userHosts, timestamp);

    websitesBlocked := CountBlockedWebsites(finalHosts);

    assert blacklistSources == FileSources(blacklistFile);
    BuiltFileFacts(PriorContent(userHosts), timestamp, blacklistDomains, extractedBlacklistDomains, finalHosts);
  }
}
