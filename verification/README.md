# minigrep search core in Dafny

This project models the search-and-match engine of minigrep. It also proves properties of that model. minigrep is a small line-oriented grep written in Rust, and its engine lives in `src/lib.rs`.

The model has these modules:

- `Matcher` — the scan behind `str::match_indices`. `FindFrom` finds the leftmost occurrence at or after a cursor. `MatchIndices` repeats that, resuming at the end of each match. The relational predicate `LeftmostGreedy` characterises the result exactly.
- `Text` — the transforms. `ToLower` is character-wise ASCII lower-casing. `Lines` is `str::lines`: it splits on `'\n'`, and a final terminator ends the last line instead of opening an empty one.
- `LineSearch` — `search` and its two entry points:
  - `SearchCaseSensitive` uses the identity transform.
  - `SearchCaseInsensitive` uses lower-casing.
  - The transform is given as a `Mode`.
  - A matching line becomes a `SingleLineResult`: the line plus its `Occurrence`s. Each `Occurrence` is an offset plus the slice of the *original* line at that offset.
  - Lines without a match are dropped.
- `ColoredPrint` — the cut `colored_print` makes of a result line: plain gap, highlighted match, …, plain tail. The cut is a pure function that returns `Segment`s. `None` stands for a slice out of range, where the Rust code panics.
- `SourceTests` — the five unit tests of `src/lib.rs`, stated and proved as lemmas about the model. Each test document is the `Join` of its lines, which is what the multi-line string literal denotes.
- `Options` — the `Option` type used by `FindFrom` and the cut.

A match is recorded as its offset together with the slice of the original line at that offset. The slice is as long as the folded query.

## Model

| member | source | states |
|---|---|---|
| Matcher.FindFrom | src/lib.rs:63 | The search step of `match_indices`. A hit is an occurrence at or after the cursor with none before it. No hit means there is no occurrence at or after the cursor. |
| Matcher.AgreesIsMatch | src/lib.rs:63 | The character-by-character comparison used by the search step holds exactly when the query occurs at that offset. |
| Matcher.MatchIndices | src/lib.rs:63 | The reported offsets form a leftmost-greedy scan. Each offset is the first occurrence at or after the end of the previous match. No occurrence is left after the last one. |
| Matcher.GreedyCons | src/lib.rs:63 | A first occurrence followed by a greedy scan resumed at its end is a greedy scan. This is the resume-after-the-match rule. |
| Matcher.GreedyUnique | src/lib.rs:63 | Two greedy scans from the same cursor are equal, so the scan is determined by its text, query and cursor. |
| Matcher.MatchIndicesCharacterized | src/lib.rs:63 | An offset list equals `MatchIndices` if and only if it is a leftmost-greedy scan. |
| Matcher.GreedyOrdered | src/lib.rs:63-64 | Every reported span lies inside the text. Offsets ascend, and each starts at or after the end of the previous match, so matches never overlap. Back-to-back matches are allowed. |
| Matcher.GreedyComplete | src/lib.rs:63 | No occurrence is missed. Every occurrence at or after the cursor is reported or overlaps a reported match. |
| Matcher.MatchIndicesEmpty | src/lib.rs:63 | The scan reports nothing if and only if the text has no occurrence at all. |
| Text.ToLower | src/lib.rs:49 | Lower-casing keeps the length. This is what lets a folded offset index the original line. |
| Text.ToLowerSlice | src/lib.rs:49 | Lower-casing a slice equals slicing the lower-cased string, so folding keeps every offset. |
| Text.ToLowerIdempotent | src/lib.rs:49 | Lower-casing an already lower-cased string changes nothing. |
| Text.ToLowerChangesOnlyCapitals | src/lib.rs:49 | Lower-casing leaves no capital behind. Every character that is not a capital is kept. |
| Text.Split | src/lib.rs:58 | Splitting on `'\n'` gives at least one piece. No piece contains a newline. Joining the pieces with `'\n'` gives the text back. |
| Text.SplitJoin | src/lib.rs:58 | Splitting undoes joining for newline-free pieces. |
| Text.Lines | src/lib.rs:57-58 | The lines contain no newline. They are empty only for the empty text. Each line followed by its terminator reproduces the text, with a terminator added when the text lacks a final one. |
| Text.LinesUnlines | src/lib.rs:58 | Splitting a text in which every line is terminated gives its lines back. |
| Text.LinesJoin | src/lib.rs:58 | Splitting an unterminated text gives its lines back when the last line is non-empty. |
| LineSearch.Fold | src/lib.rs:45-50 | The transform of each mode keeps the length of the string. |
| LineSearch.FoldSlice | src/lib.rs:62-64 | Folding commutes with slicing, so an offset found in the folded line is an offset in the original line. |
| LineSearch.LineMatches | src/lib.rs:59-66 | Every match of a line ends inside the line. |
| LineSearch.SpanFolds | src/lib.rs:62-64 | An occurrence of the folded query in the folded line is a span of the original line that folds to the folded query. |
| LineSearch.LineMatchesSlices | src/lib.rs:62-64 | Each match lies inside the line. Its value is the original text at its offset, of the query's length, and that text folds to the folded query. |
| LineSearch.LineMatchesGreedy | src/lib.rs:63 | The offsets of a line's matches are exactly the leftmost-greedy scan of the folded line. They ascend and do not overlap. |
| LineSearch.ScanLines | src/lib.rs:57-67 | Scanning keeps exactly the document's lines, in order, each paired with its matches. |
| LineSearch.DropUnmatched | src/lib.rs:68 | Every kept entry has at least one match and comes from the input. The kept entries are an order-preserving subsequence of the input. |
| LineSearch.DropUnmatchedComplete | src/lib.rs:68 | No entry that has a match is dropped. |
| LineSearch.DropUnmatchedCount | src/lib.rs:68 | Exactly as many entries are kept as carry a match, counted by position, so repeated entries are all kept. Together with the subsequence clause this fixes the filtered list. |
| LineSearch.Search | src/lib.rs:52-71 | There are never more results than lines in the document. |
| LineSearch.SearchSound | src/lib.rs:57-70 | Every reported line is a line of the document. It has at least one match, and it carries exactly that line's matches. |
| LineSearch.SearchComplete | src/lib.rs:68 | Every line of the document that has a match is reported. |
| LineSearch.SearchCount | src/lib.rs:57-70 | There is exactly one result per matching line position of the document. |
| LineSearch.SearchRepeatedLine | src/lib.rs:57-70 | A matching line that occurs twice in a row is reported twice, with the same matches. |
| LineSearch.SearchInOrder | src/lib.rs:57-70 | Reported lines keep their document order. |
| LineSearch.SearchEmpty | src/lib.rs:68 | The result is empty if and only if no folded line contains the folded query. An empty document gives an empty result. |
| LineSearch.SearchSpans | src/lib.rs:62-64 | For every match of every reported line, the span lies inside the line and the value is the original text of the span. The value folds to the folded query. |
| LineSearch.SearchOrderedMatches | src/lib.rs:63 | The matches of each reported line are the leftmost-greedy scan of the folded line. Each starts at or after the end of every earlier one. |
| LineSearch.SearchCaseSensitive | src/lib.rs:45-47 | Every reported value is the query itself, found verbatim at its offset in the line. |
| LineSearch.InsensitiveSpans | src/lib.rs:48-49 | A faithful span under lower-casing is the original text at its offset, and it equals the query once both are lower-cased. |
| LineSearch.SearchCaseInsensitive | src/lib.rs:48-50 | Every reported value is the original line's text at its offset, in its original casing. It equals the query once both are lower-cased. |
| ColoredPrint.FitsCons | src/lib.rs:75-81 | The matches fit from a cursor exactly when the first one does and the rest fit from the end of the first. |
| ColoredPrint.FlattenCut | src/lib.rs:78-81 | A gap and a highlighted match, placed in front of the pieces of the rest of the line, reassemble the line from the gap's start. |
| ColoredPrint.RenderFrom | src/lib.rs:74-83 | The cut exists exactly when every slice it takes is in range. The pieces then reassemble the line from the cursor, and there are two pieces per match plus the tail. |
| ColoredPrint.RenderStep | src/lib.rs:75-81 | One loop iteration emits the gap since the cursor and the highlighted slice, then moves the cursor to the end of the match. |
| ColoredPrint.PiecesShift | src/lib.rs:75-81 | A later match's pieces sit two segments further on than in the cut of the rest of the line. |
| ColoredPrint.RenderTail | src/lib.rs:83 | The last piece is the plain tail after the last match. |
| ColoredPrint.RenderShape | src/lib.rs:74-83 | For the k-th match the cut holds the gap since the previous match, then the line's slice under the match, highlighted. The tail closes the line. |
| ColoredPrint.Render | src/lib.rs:73-84 | `colored_print` on one result: it succeeds exactly when all slices are in range, and the pieces reassemble the line. |
| ColoredPrint.SpansFit | src/lib.rs:78-79 | Faithful, ascending, non-overlapping spans keep every slice of the cut in range. |
| ColoredPrint.HighlightsAreValues | src/lib.rs:79 | With faithful spans, the k-th highlighted piece is the k-th reported value. |
| ColoredPrint.SpansRenderFaithfully | src/lib.rs:73-84 | A result with faithful, ordered spans renders faithfully. |
| ColoredPrint.SearchResultsRender | src/lib.rs:73-84 | Every line `search` reports can be cut without an out-of-range slice. The pieces reassemble the line exactly, and the k-th highlighted piece is the k-th reported value. |
| SourceTests.DuctInProductive | src/lib.rs:101-104 | "duct" occurs once in "safe, fast, productive.", at offset 15. |
| SourceTests.OneResult | src/lib.rs:94-107 | Test `one_result`: one of three lines matches "duct", once, at offset 15. |
| SourceTests.NoResult | src/lib.rs:108-114 | Test `no_result`: a document with no occurrence of the query gives an empty result. |
| SourceTests.AfterPrefixMatches | src/lib.rs:128-131 | In "NahardaNaharda!" the leftmost occurrence of "Naharda!" is at offset 7. The unterminated prefix is not a match. |
| SourceTests.TwiceMatches | src/lib.rs:132-135 | In "Naharda!Naharda!" both back-to-back occurrences are found, at offsets 0 and 8. |
| SourceTests.SpacedMatches | src/lib.rs:136-139 | In "Naharda! Naharda Naharda!" the matches are at offsets 0 and 17. The near miss at 9 is skipped. |
| SourceTests.MultipleResults | src/lib.rs:115-143 | Test `multiple_results`: all four lines match, with the offsets the test lists. |
| SourceTests.CaseSensitiveTest | src/lib.rs:144-160 | Test `case_sensitive`: "Duct tape." does not match "duct". Only the "productive" line is reported. |
| SourceTests.TrustMatches | src/lib.rs:177-180 | Case-insensitively, "rust" in "Trust me." is found at offset 1 with value "rust". |
| SourceTests.CaseInsensitiveTest | src/lib.rs:162-184 | Test `case_insensitive`: "rUsT" matches "Rust" at 0 in "Rust:" and "rust" at 1 in "Trust me.". Values keep the line's casing. |

## Left out

- `Config::new` (src/lib.rs:9-29): reading the process arguments and the `CASE_INSENSITIVE` environment variable is environment plumbing. The case choice is the `Mode` parameter of `LineSearch.Search`.
- `run` (src/lib.rs:32-43): file reading and the print loop are I/O. Its dispatch on `case_sensitive` is the choice between the two entry points.
- The `main` program: exit codes, error messages and the banner are process plumbing. `src/main.rs` is not part of this model.
- Colouring and printing in `colored_print`: `.red().bold()`, `print!` and `println!` are presentation. Only the cut into plain and highlighted pieces is modelled.
- Text.ToLower: folds only the ASCII capitals `A`–`Z`, not the full Unicode `to_lowercase`. Unicode lower-casing can change a string's byte length, and then an offset found in the lowered line no longer indexes the original line. Only a length-preserving fold keeps the slice at src/lib.rs:64 meaningful.
- Text.Lines: does not strip a `'\r'` before a `'\n'`, which `str::lines` does. Documents are taken to use bare `'\n'` terminators.
- LineSearch.Search: requires a non-empty query. `match_indices` with an empty pattern reports a match at every position. That behaviour is a library detail the tests never exercise, so the model does not cover it.
- Strings are sequences of characters, not UTF-8 bytes. Offsets count characters, which agrees with byte offsets on ASCII text, the only text the model's fold is faithful for.
- `colored_print` panics on an out-of-range slice. `ColoredPrint.RenderFrom` returns `None` there instead, and `ColoredPrint.SearchResultsRender` shows this never happens for results of `search`.
