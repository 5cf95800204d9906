# aeigo blocklist pipeline in Dafny

aeigo is an ad blocker. It turns the local hosts file into a blocklist. Two
source lists name URLs of published blocklists. aeigo downloads every
blacklist URL and merges the bodies. It extracts the distinct domain lines,
sorted. It then writes a hosts file made of three parts:

- the user's previous hosts content, or a fallback comment when that could not be read;
- a two-line header that carries a generation timestamp;
- one `0.0.0.0 <domain>` entry per domain.

Last, it counts the lines that start with `0.0.0.0`. A few line-oriented
file helpers sit beside the pipeline: find the first line that holds a
pattern, copy the first n lines of a file, and drop blank lines.

The model has five modules:

- `Wrappers` (`wrappers.dfy`): `Option` and `Result`.
- `GoStrings` (`go_strings.dfy`): the parts of Go's `strings` package the program uses.
  - `Split` on `"\n"`, with its inverse `Join`.
  - `TrimSpace`, `HasPrefix` and `Contains`.
  - The byte order used by `sort.Strings` (`Less`).
  - `Unlines`: each line followed by a newline.
  - `strings.Builder`, as a class whose buffer `WriteString` extends.
- `Sorting` (`sorting.dfy`): `sort.Strings`, as an in-place insertion sort on an array.
  It is proved sorted and a permutation of its input. Lemmas tie a sorted,
  duplicate-free array to the strictly ascending order of its elements.
- `Blocklist` (`blocklist.dfy`): the pipeline.
  - Reading a source list, and downloading and merging its sources.
  - Extracting domains, building the final hosts file, and counting the blocked entries.
  - `DownloadAndBuildBlocklists`, which composes them.
  - Every imperative step is a method with loops. Each method is proved against a specification function. The lemmas are stated about those functions.
- `LineUtils` (`lineutils.dfy`): `getLineCount`, `copyFirstNLines` and `removeEmptyLines`.

Outside inputs become parameters:

- Each sources file is a `SourcesFile`: missing, unopenable, or the lines its scanner yields.
- A download is a function `string -> Option<string>`. It gives `None` where the HTTP request fails.
- The previous hosts file is `Option<string>`: `None` when it cannot be read.
- The timestamp is a string.
- An input file of the line helpers is `Option<seq<string>>` of scanned lines. Whether their output file can be created is a boolean.

## Model

| member | source | states |
|---|---|---|
| Blocklist.ReadSourcesFromFile | main.go:66-88 | A missing or unopenable file returns the given sources unchanged. Otherwise the result is the given sources followed by the trimmed, non-empty lines of the file, in file order. |
| Blocklist.SourceLines | main.go:76-81 | Every kept source is non-empty and trimmed. No more sources are kept than the file has lines. |
| Blocklist.SourceLinesMembers | main.go:76-81 | A string is a kept source exactly when it is non-empty and is the trimmed form of some line of the file. |
| Blocklist.SourceLinesAppend | main.go:76-81 | Scanning lines is compositional: the sources of `a + b` are those of `a` followed by those of `b`. |
| Blocklist.DownloadAndMergeSources | main.go:90-99 | The merged text is the concatenation, in source order, of each source's downloaded body. A failed download contributes the empty string. |
| Blocklist.MergedAppend | main.go:93-96 | Merging distributes over concatenation of source lists. |
| Blocklist.FailedSourceIgnored | main.go:104-107 | A source whose download fails can be removed without changing the merged text. |
| Blocklist.AllFailedMergedEmpty | main.go:90-107 | When every download fails, the merged text is empty. |
| Blocklist.ExtractDomains | main.go:116-134 | The result is strictly ascending, so it is sorted and free of duplicates. It holds exactly the domains of `DomainSet` for the newline-split text. Every extracted domain is trimmed and newline-free. |
| Blocklist.DomainSetMembers | main.go:118-125 | A string is a domain exactly when it is non-empty, does not start with `#`, and is the trimmed form of some line. |
| Blocklist.DomainSetClean | main.go:118-125 | When the lines are newline-free, every extracted domain is newline-free and trimmed. |
| Blocklist.ExtractedCount | main.go:127-134 | An extracted list has exactly as many entries as there are distinct domains. |
| Sorting.SortStrings | main.go:132 | After sorting, the array is in non-decreasing byte order and is a permutation of its original contents. |
| Sorting.SortedDistinctAscending | main.go:127-132 | A sorted sequence without duplicates is strictly ascending. |
| Sorting.DistinctPermutation | main.go:127-132 | A permutation of a duplicate-free sequence is duplicate-free. |
| Sorting.DistinctCardinality | main.go:127-130 | A duplicate-free sequence has as many elements as the set of its members. |
| Sorting.AscendingUnique | main.go:127-132 | Two strictly ascending sequences with the same members are equal. So the extracted list is determined by the set of domains, whatever order the map iteration took. |
| GoStrings.Less | main.go:132 | The order `sort.Strings` compares with. No string is less than itself, and a proper prefix is less than the longer string. |
| GoStrings.LessFirstDifference | main.go:132 | Past a common prefix, the first differing character decides the order. |
| GoStrings.LessTransitive | main.go:132 | The byte order used for sorting is transitive. |
| GoStrings.LessTotal | main.go:132 | Any two distinct strings are ordered one way or the other. |
| GoStrings.Builder.constructor | main.go:91 | A new builder (also main.go:137) holds the empty string. |
| GoStrings.Builder.WriteString | main.go:95 | Each write (also main.go:142-154) appends its text to the buffer and changes nothing else. |
| Blocklist.BuildFinalHostsFile | main.go:136-157 | The file is the prior content, then the header, then one `0.0.0.0 <domain>\n` line per domain, in list order. The prior content is either the previous hosts content or the fallback comment line. The whitelist has no effect. |
| Blocklist.EntryLines | main.go:153-155 | There is one entry per domain, and entry `k` is `0.0.0.0 ` followed by domain `k`. |
| Blocklist.GeneratedHeaderText | main.go:148-149 | The header is exactly the text of the two writes: `"\n# Ad blocking hosts generated "`, the timestamp and a newline, then `"# Don't write below this line. It will be lost if you run aeigo again.\n\n"`. |
| Blocklist.HostsFileLines | main.go:136-170 | For a newline-free timestamp and domains, the built file splits into these lines, in order: the prior content's lines, the generated comment, the warning comment, an empty line, one entry per domain, and a final empty piece. |
| Blocklist.HostsFileCount | main.go:136-170 | Counting the built file gives the count of the prior content plus the number of domains. |
| Blocklist.CountEntryLines | main.go:153-155 | Every entry line counts as blocked. |
| Blocklist.CommentsCountNothing | main.go:148-149 | The two header comment lines and the blank line count as nothing. |
| Blocklist.FallbackCountsNothing | main.go:141-143 | The fallback comment counts as nothing. |
| Blocklist.CommentNotBlocked | main.go:159-170 | No comment line starts with the block address. |
| Blocklist.CountBlockedWebsites | main.go:159-170 | The counter equals `CountBlocked` of the newline-split content. |
| Blocklist.CountBlockedPositions | main.go:163-167 | `CountBlocked` is the number of line positions that start with `0.0.0.0`. |
| Blocklist.CountBlockedAppend | main.go:159-170 | Counting distributes over concatenation of line lists. |
| Blocklist.RebuildAppends | main.go:56-59 | Rebuilding from a hosts file that an earlier run produced keeps all of it as a prefix. The count grows by the number of domains again. This is the repeated-header defect that the comment at main.go:58 names. |
| Blocklist.BuiltFileFacts | main.go:53-61 | The file built from the extracted domains of a merged text keeps the prior content as a prefix. It is `GeneratedFrom` that text's domain set. Its count is the prior count plus the number of distinct domains. |
| Blocklist.DownloadAndBuildBlocklists | main.go:40-64 | The file that is written is the prior content, then the generated header, then one `0.0.0.0 <domain>` line for each distinct blacklist domain, in ascending order (`GeneratedFrom`). The domains are those downloaded from the sources the blacklist file names. The whitelist file has no effect on the file. The reported count is the prior content's count plus the number of those domains. |
| GoStrings.Split | main.go:118 | `strings.Split(s, "\n")`, also used at main.go:160, always yields at least one piece. Its meaning is fixed by `JoinSplit`, `SplitPieces` and `SplitAt`. |
| GoStrings.JoinSplit | main.go:118 | Splitting on newlines loses nothing: joining the pieces with newlines gives back the text. |
| GoStrings.SplitJoin | main.go:118 | For newline-free pieces, splitting their newline-join gives back the pieces. |
| GoStrings.SplitPieces | main.go:118 | No piece of a newline split contains a newline. |
| GoStrings.SplitAt | main.go:160 | Splitting `a + "\n" + b` gives the pieces of `a` followed by the pieces of `b`. |
| GoStrings.SplitUnlines | main.go:153-155 | Text written as newline-terminated lines splits back into those lines plus a final empty piece. |
| GoStrings.TrimSpace | main.go:77 | `strings.TrimSpace`, also used at main.go:121 and main.go:259. The result has no white space at either end. `TrimSpaceSlice` adds that it is a slice of the input with only white space removed. |
| GoStrings.TrimSpaceSlice | main.go:77 | The trimmed string is a slice of the input. Everything removed from either end is white space. |
| GoStrings.TrimSpaceIdempotent | main.go:77 | Trimming twice is trimming once. |
| GoStrings.TrimmedUnchanged | main.go:119-120 | A string with no white space at either end is left unchanged. |
| GoStrings.HasPrefix | main.go:122 | `strings.HasPrefix`, also used at main.go:164: `s` has prefix `p` exactly when `p` is no longer than `s` and agrees with `s` at every position of `p`. |
| GoStrings.Contains | main.go:190 | The empty pattern is contained in every line, and a contained pattern is no longer than the line. |
| GoStrings.ContainsAt | main.go:190 | `Contains` holds exactly when the pattern is a prefix of some suffix of the line. |
| LineUtils.GetLineCount | main.go:179-196 | An unopenable file gives -1. Otherwise a result `r >= 0` is the index of a line that contains the pattern, and no earlier line contains it. A result of -1 means no line contains it. The result equals `FirstMatch`. |
| LineUtils.FirstMatch | main.go:187-195 | The index is -1 or a line index. That line contains the pattern, and every line before it does not (when -1, every line does not). |
| LineUtils.FirstMatchOccurs | main.go:190 | The matching line contains the pattern at some offset. |
| LineUtils.FirstMatchAppend | main.go:187-195 | Appending lines does not move an existing match. Without one, a match in the appended lines is found offset by the length of the first part. |
| LineUtils.CopyFirstNLines | main.go:215-241 | An unopenable source fails with `OpenFailed`, checked first. A destination that cannot be created fails with `CreateFailed`. Otherwise the output is the first `CopyCount(n, len)` lines, each followed by a newline. |
| LineUtils.CopyCount | main.go:230-239 | The count of copied lines: 0 when `n <= 0`, `n` when it is within the file, all lines when `n` exceeds it. |
| LineUtils.CopyIsPrefix | main.go:215-241 | The copy is a prefix of the file rewritten line by line. |
| LineUtils.CopyReadBack | main.go:215-241 | The copy splits back into exactly the copied lines. |
| LineUtils.RemoveEmptyLines | main.go:243-267 | The two open failures are reported as for the copy. Otherwise the output is the non-blank lines, unmodified and in order, each followed by a newline. |
| LineUtils.NonBlankMembers | main.go:257-263 | A line is kept exactly when it occurs in the input and its trimmed form is not empty. |
| LineUtils.NonBlankAppend | main.go:255-264 | Filtering distributes over concatenation. |
| LineUtils.NonBlankIdempotent | main.go:255-264 | Filtering a filtered list changes nothing. |
| LineUtils.RemoveEmptyLinesReadBack | main.go:243-267 | The output splits back into the kept lines, and none of them is blank. |

## Left out

- HTTP (`downloadFile`, main.go:101-114) is a parameter: `download(url)` gives the body, or `None` when the request fails. Two downloads of the same URL in one run are assumed to give the same body.
- File system reads and opens are parameters: `os.Stat`, `os.Open`, `ioutil.ReadFile` and `os.Create`.
- Writing the hosts file (`writeToFile`, main.go:172-177) is not modelled, and neither is its logged failure. `DownloadAndBuildBlocklists` returns the content that would be written.
- `copyFile` (main.go:198-213) is not modelled. It only streams bytes from one file to another and does no processing.
- Write errors on the destination in `copyFirstNLines` and `removeEmptyLines` are not modelled. Every write is taken to succeed.
- Scanner details are not modelled. The scanner is taken to yield the file's lines with the terminators removed, and the model does not cover:
  - the stripping of a trailing carriage return;
  - the 64 KiB token limit;
  - a scan error that stops reading early.
- `time.Now().Format(time.RFC3339)` is the parameter `timestamp`. The count lemmas require it to hold no newline, which every RFC 3339 time stamp satisfies.
- Console output (`fmt.Println`, `fmt.Printf`) is not modelled.
- The unused flag variables and version constants are not modelled.
- Whitelist filtering is not modelled, because the program reads and extracts the whitelist but never applies it.
- The program never truncates an existing generated section. `RebuildAppends` states the consequence.
- GoStrings.TrimSpace: trims only the ASCII white space of Go's `unicode.IsSpace` (space, tab, newline, vertical tab, form feed, carriage return). It does not trim U+0085, U+00A0 or the other Unicode spaces Go also removes.
- GoStrings.Less: compares code points, not UTF-8 bytes. The two orders agree on valid UTF-8 text.
- Blocklist.ExtractDomains: the order in which Go iterates over the map is chosen arbitrarily. The sort makes the result independent of it (`AscendingUnique`).
