# Clip patcher engine, modelled in Dafny

This project models the pattern-matching and patching engine of the clip patcher, a
web tool that removes references to external resource names from binary `.clip` files.
The tool searches a file's bytes for user patterns. A pattern is either an exact
string or a glob with `*` and `?`. The tool then overwrites every hit in a copy of the
file, with zero bytes or with a repeating placeholder string.

The modules follow the engine's parts in `script.js`:

- `Bytes` (bytes.dfy): the byte type, the printable range 32..126, hits (`Match`), printable runs (`Run`) and patterns with their three caller-supplied encodings.
- `ByteSearch` (search.dfy): `findBytes` as the method `FindBytes`, and the overlapping scan of one needle as `ScanCandidate`. The scan is specified by the list of occurrence positions, `OccurrencesFrom`.
- `AsciiStrings` (ascii.dfy): `extractAsciiStrings` as the method `ExtractAsciiStrings`. It is specified by the function `AsciiRuns`, the maximal printable runs of the buffer.
- `Glob` (glob.dfy): the meaning of the regular expression built by `wildcardToRegex`, as the recursive predicate `GlobMatch`, with the concatenation law and the case-folding law.
- `Matching` (matching.dfy): `findMatches` as the method `FindMatches`. It is specified by `PatternMatches`, which dispatches to the exact search over the case candidates or to the wildcard filter over the runs.
- `Patching` (patching.dfy): the merge, sort and apply steps of `processFile` as `ProcessFile`. The hits are merged by `AllMatches` and sorted by the stable descending sort `SortDesc`. The buffer is rewritten by `Patch`, which overwrites the hits in order.
- `Scenarios` (scenarios.dfy): worked cases on the specification functions.

The input buffer is a read-only `seq<byte>` for the scanning methods. `ProcessFile` takes
an `array<byte>` that it may not modify. It writes into a fresh array copy, one
`Uint8Array.set` per hit (`WriteReplacement`).

Three behaviours of the code that the model keeps:

- Candidate order: the code scans the pattern's own encoding first, then the lower-case form, then the upper-case form (script.js:229-233).
- No hits: the code returns `{patchCount: 0, matches: []}` without making a copy or producing a download (script.js:166-168). `ProcessFile` returns `None` as its output in that case.
- The mode: the code compares the mode string with `'null'` and treats any other value as placeholder mode (script.js:174). The model uses the two-case datatype `Mode`.

Case folding under the `i` flag: the regular expression has no `u` flag, so folding
never maps a non-ASCII character to an ASCII one. Run text only holds bytes 32..126. So
the flag amounts to folding `A`..`Z` onto `a`..`z` on both sides (`CharMatches`). Run
text also holds no line terminators, so `.` matches any run byte, and the anchored
expression is exactly whole-string glob matching.

## Model

| member | source | states |
|---|---|---|
| ByteSearch.FindBytes | script.js:295-307 | A result other than -1 satisfies startPos <= r <= |h|-|n| and the needle occurs at r, with no occurrence in [startPos, r). The result is -1 exactly when no occurrence starts at or after startPos. A needle longer than the haystack always gives -1. |
| ByteSearch.OccurrencesExact | script.js:235-249 | The occurrence list holds exactly the positions in [pos, |h|) where the needle occurs, in strictly increasing order. |
| ByteSearch.ScanCandidate | script.js:235-249 | The scan that restarts at index + 1 returns the hits at exactly the occurrence positions, overlapping ones included. |
| ByteSearch.CandidateMatchesExact | script.js:235-249 | Each hit of one candidate has the candidate's length and text and lies inside the buffer. Offsets strictly increase. Match(i, |c|, c) is reported iff c occurs at i. |
| ByteSearch.OccurrenceCount | script.js:235-249 | One scan reports a given hit once if it is an occurrence of that same candidate, and otherwise never. |
| AsciiStrings.PrintableSpan | script.js:260-267 | The span from i is all printable and is followed by a non-printable byte or by the end of the buffer. |
| AsciiStrings.ExtractAsciiStrings | script.js:255-281 | The accumulator loop, including the flush of a trailing run, returns exactly the maximal runs AsciiRuns(data). |
| AsciiStrings.RunsFromMaximal | script.js:255-281 | Each run is non-empty, all printable, equal to its slice of the buffer, and maximal: the bytes before and after it are not printable. Runs come in increasing order with a gap between them. |
| AsciiStrings.AsciiRunsSplit | script.js:255-281 | The runs are maximal and pairwise separated. Every printable byte of the buffer lies in a run, and in only one. |
| AsciiStrings.RunBytesPrintable | script.js:262-273 | A byte lies in some run iff it is printable. |
| Glob.GlobMatch | script.js:283-293 | The anchored regular-expression test applied at line 215: the whole text must match. `*` matches any sequence, `?` exactly one byte, and every other character itself. Under the case flag both sides are ASCII-folded. A pattern without `*` only matches texts of its own length. |
| Glob.QuestionMatchesOne | script.js:287 | A lone `?` (`.`) matches exactly the one-byte texts. |
| Glob.GlobConcat | script.js:283-293 | A concatenated pattern matches t iff t splits into a part matching the first pattern and a part matching the second. This is the regular-expression meaning of the anchored translation. |
| Glob.StarMatchesAll | script.js:287 | A lone `*` (`.*`) matches every text. |
| Glob.LiteralMatch | script.js:285 | A pattern without wildcards, whose metacharacters are escaped, matches exactly the texts of its length that agree with it character by character. |
| Glob.IgnoreCaseIsFolded | script.js:291 | Matching with the case flag equals case-sensitive matching with both sides ASCII-folded. |
| Glob.SensitiveImpliesInsensitive | script.js:291 | A case-sensitive match is also a case-insensitive one. |
| Glob.AnchoredExamples | script.js:289 | Anchoring: `abc*` matches all of `abcdef` and does not match `xabc`. |
| Matching.HasWildcards | script.js:207 | A pattern is a wildcard pattern iff some character of it is `*` or `?`. |
| Matching.Candidates | script.js:229-233 | The first candidate is always the pattern's own encoding. There are three candidates when ignoring case and one otherwise. |
| Matching.FindMatches | script.js:203-253 | Returns the runs that match the glob when the pattern contains `*` or `?`, and otherwise the concatenated scans of the candidates. |
| Matching.ExactMatchesOrder | script.js:225-249 | The exact result is the scan of the original encoding, then, only when ignoring case, the lower-case scan and the upper-case scan. |
| Matching.ExactMatchCount | script.js:225-249 | Match(i, |c|, c) appears once for each candidate equal to c when c occurs at i, and never otherwise. Identical candidates therefore duplicate hits. |
| Matching.ScanAllInBounds | script.js:238-246 | Every exact hit lies inside the buffer and covers bytes equal to its text. |
| Matching.WildcardMatchesExact | script.js:214-222 | The wildcard hits are exactly the whole-run hits of the runs whose text matches. |
| Matching.WildcardHitsAreRuns | script.js:209-222 | Each wildcard hit covers one whole maximal printable run that matches, with offset = run offset and length = run length. Every matching run yields a hit. |
| Matching.PatternMatchesInBounds | script.js:203-253 | Every hit of either branch lies inside the buffer and covers its own text. |
| Patching.SortDesc | script.js:164 | The sort returns a permutation of the merged hits. Its order and stability are the next two rows. |
| Patching.SortDescSortedPermutation | script.js:164 | The sort gives a permutation of the hits in descending offset order. |
| Patching.SortDescStable | script.js:164 | The sort is stable: for every offset, the hits with that offset keep their relative order. |
| Patching.ReplacementCycles | script.js:174-183 | The replacement is zeros in null mode or with an empty placeholder. Otherwise it starts with the placeholder, truncated to the hit's length, and repeats with the placeholder's length as period. |
| Patching.PlaceholderABABA | script.js:178-182 | Placeholder `AB` over five bytes gives `ABABA`. |
| Patching.BuildReplacement | script.js:173-183 | Builds the zero fill, or fills byte i with placeholderBytes[i mod k] (or 0 when k = 0). The result is the replacement. |
| Patching.OverwriteAt | script.js:185 | After one write, bytes in the hit's range hold the replacement byte for their distance from the offset, and all other bytes are unchanged. |
| Patching.Patch | script.js:171-186 | Patching preserves the buffer's length. |
| Patching.LastWriter | script.js:172-186 | Each byte ends with the value written by the last hit that covers it, or its original value when none does. |
| Patching.PatchOutside | script.js:171-186 | Bytes outside every hit's range are unchanged. |
| Patching.LowestOffsetWins | script.js:164-186 | With hits in descending order, a byte covered by several hits ends with the value of a lowest-offset covering hit. Hits tying at that offset write the same value. |
| Patching.NullModeZeroes | script.js:174-175 | In null mode every byte covered by a hit becomes 0. |
| Patching.AllMatchesTagged | script.js:157-161 | Each merged hit carries the pattern that produced it, and every hit of every pattern is in the merged list, duplicate patterns included. |
| Patching.AllMatchesCount | script.js:157-161 | The merged list's length is the total number of hits over all patterns, duplicates included. |
| Patching.AllMatchesInBounds | script.js:157-164 | Every merged hit, before and after sorting, lies inside the buffer. |
| Patching.CollectMatches | script.js:157-161 | The pattern loop returns the concatenation of the tagged per-pattern hits. |
| Patching.WriteReplacement | script.js:185 | `set` writes the replacement over exactly the hit's range of the copy. |
| Patching.ApplyPatches | script.js:172-186 | Applying the hits in list order leaves the array equal to Patch of its old contents. |
| Patching.ProcessFile | script.js:152-201 | The input is unchanged. patchCount is the number of merged hits, duplicates included. The reported list is the hits in descending, stable order. With no hits there is no output copy. Otherwise a fresh copy holds the patched buffer. |
| Scenarios.HelloWorldNull | script.js:157-186 | `helloXXXworld` with `XXX` in null mode gives one hit at offset 5 of length 3, and the buffer becomes `hello`, three zero bytes, `world`. |
| Scenarios.OverlapTieBreak | script.js:164-186 | Of the overlapping hits [0,5) and [3,8), byte 3 takes the value written by the hit at offset 0. |
| Scenarios.FooIgnoringCase | script.js:225-233 | `Foo` ignoring case reports each occurrence of `Foo`, `foo` and `FOO` once, and never `fOo`. |
| Scenarios.LowerCaseReportedTwice | script.js:225-233 | An all-lower-case pattern searched ignoring case reports each occurrence twice. |

## Left out

- The DOM, event listeners, drag-and-drop, the file list, the log, the progress bar and `formatFileSize` (script.js:5-75): presentation only, and `formatFileSize` uses floating point.
- `startPatching` (script.js:77-150): the asynchronous per-file loop, alerts and totals. Its trimming and filtering of the pattern lines uses JavaScript's Unicode `trim`. `ProcessFile` therefore requires non-empty pattern texts, which is what that filter guarantees. An empty pattern list is refused there, not in the engine.
- `file.arrayBuffer()` and the Blob download of the patched copy (script.js:153, 188-195): I/O. The patched bytes are returned as the output array instead.
- `TextEncoder`, `TextDecoder`, `toLowerCase` and `toUpperCase` (script.js:178, 225-227, 241): foreign text APIs. The pattern's three encodings and the placeholder's encoding are parameters. Reported text is the raw matched bytes, not their decoded string.
- The `RegExp` engine (script.js:292): replaced by the glob predicate `GlobMatch`, whose laws are stated as lemmas. The translation to a regular-expression string is not modelled.
- The sorting algorithm of `Array.prototype.sort` (script.js:164): it is not part of the source. It is modelled as a functional stable insertion sort whose order, permutation and stability are proved.
- Pattern characters outside the Basic Multilingual Plane: JavaScript sees them as two code units and Dafny as one character. Such characters never match printable ASCII run text, so the difference is not observable.
- `locales/en.js`: constant interface strings with no engine logic.
