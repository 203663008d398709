# Japanese sentence flashcards: a Dafny model

This project models the two sequential pieces of a small flashcard program
that shows Japanese sentences and, on request, their English translations.

- **The corpus loader** (`sentances.dfy`, module `Sentances`): after the
  program reads the tab-separated sentence-pair file into a string, it
  splits the string into lines with Rust's `str::lines`. It splits each line
  at tabs with `str::split("\t")`. Each line becomes one `Sentance` whose
  English text is field 3 and whose Japanese text is field 1.
  If a line has fewer than four fields, indexing field 3 panics. The model
  returns `Failure(FieldIndexOutOfBounds(line, fieldCount))` for the first
  such line, because the lazy iterator panics there before it reads any later line.
  `Split` and `Lines` are written out character by character and proved
  against their inverses: `Join` for `Split`; for `Lines`, `Unlines`
  (lines ended by "\n") and `UnlinesCrLf` (lines ended by "\r\n").
- **The application state** (`ui.dfy`, module `Ui`): the fields are the
  corpus, the index of the current sentence and a "revealed" flag. `new`
  picks `r % count` for a random `r`. The one button message `RevealOrNext`
  first reveals the translation. Pressed again, it hides the translation and
  picks `r % len` with a fresh random `r`. The class
  `JapaneseSentanceApp` updates its fields in place. Its methods are proved
  against the pure transition functions `Init` and `Update` on `AppState`.
  The lemmas about `Update` and `Run` state the invariant the view
  relies on (`current < |sentances|`), the alternation of the two states and
  the frame: the corpus never changes.

Random draws are parameters: each use of `rand::random::<usize>()` is an
arbitrary natural number `r` supplied by the caller.

## Model

| member | source | states |
|---|---|---|
| `Sentances.Split` | src/sentances.rs:9 | a line splits into one more field than it has tabs, and no field contains a tab |
| `Sentances.JoinSplit` | src/sentances.rs:9 | splitting loses nothing: re-joining the fields with tabs gives the line back |
| `Sentances.SplitJoin` | src/sentances.rs:9 | tab-free fields joined with tabs split back into exactly those fields, empty ones included |
| `Sentances.Lines` | src/sentances.rs:9 | `str::lines`: one line per '\n' in the text, plus one for a last line with no line ending |
| `Sentances.OneLine` | src/sentances.rs:9 | text without '\n' is a single line, a bare final '\r' included; followed by "\r\n" it is still that one line, without the ending's '\r' |
| `Sentances.SplitLastPiece` | src/sentances.rs:9 | the last piece of a split is empty exactly when the text is empty or ends with the separator, which is why a final line ending adds no line |
| `Sentances.LinesHaveNoLineFeed` | src/sentances.rs:9 | no line produced by `lines` contains a line feed |
| `Sentances.LinesEmpty` | src/sentances.rs:9 | the text has no lines exactly when it is empty |
| `Sentances.FinalLineFeedIsOptional` | src/sentances.rs:9 | a final "\n" after a last line that does not end in '\r' adds no extra line |
| `Sentances.FinalCrLfIsOptional` | src/sentances.rs:9 | a final "\r\n" adds no line, and its '\r' is not part of the last line |
| `Sentances.LinesUnlines` | src/sentances.rs:9 | lines without '\n' and not ending in '\r', each written followed by "\n", are read back unchanged |
| `Sentances.LinesUnlinesCrLf` | src/sentances.rs:9 | any lines without '\n', each written followed by "\r\n" (a CRLF file), are read back unchanged: every "\r\n" ending loses its '\r', and a line's own final '\r' is kept |
| `Sentances.ParseLine` | src/sentances.rs:10-17 | a line yields a sentence exactly when it has at least four fields, with tab-free fields; otherwise it fails at that line with its field count |
| `Sentances.ParseLines` | src/sentances.rs:9-18 | success exactly when every line has at least four fields; then one sentence per line in order, en = field 3, jp = field 1; otherwise the error names the first short line and its field count |
| `Sentances.ParseTsv` | src/sentances.rs:9-18 | loading succeeds exactly when every line of the text has at least four fields, with one sentence per line; a failure names a line that is too short |
| `Sentances.ParseTsvRecords` | src/sentances.rs:13-16 | sentence i of the result is (field 3, field 1) of line i |
| `Sentances.ParseTsvFieldsClean` | src/sentances.rs:9-16 | no loaded English or Japanese text contains a tab or a line feed |
| `Sentances.ParseJoinedLine` | src/sentances.rs:11-16 | a line made of four or more tab-free fields loads as (field 3, field 1) |
| `Sentances.IgnoredFields` | src/sentances.rs:13-16 | fields 0 and 2, and any fields after field 3, have no effect on the sentence |
| `Sentances.ShortLineFails` | src/sentances.rs:11-14 | one line with fewer than four fields makes the whole load fail, at that line or an earlier one; there is no partial result |
| `Sentances.BlankLineFails` | src/sentances.rs:11-14 | a blank line has one field and fails |
| `Sentances.EmptyTextLoadsNothing` | src/sentances.rs:9-18 | the empty file loads as no sentences |
| `Sentances.LoadedCorpusNonEmpty` | src/ui.rs:31-35 | a successful load yields at least one sentence exactly when the file is not empty, which is when `% count` in `new` is defined |
| `Sentances.FinalLineEndingIgnored` | src/sentances.rs:9 | a trailing "\n" or "\r\n" at the end of the file does not change what is loaded |
| `Sentances.ParseTsvRoundTrip` | src/sentances.rs:9-18 | a table whose rows have four or more fields, none containing a tab or a '\n', and whose last field does not end in '\r', written one "\n"-terminated line per row, loads as the rows' (field 3, field 1) pairs in order (a final '\r' would be taken as part of a "\r\n" line ending) |
| `Ui.Init` | src/ui.rs:30-39 | the initial state keeps the loaded corpus, hides the translation and shows index `r % count`, a valid index |
| `Ui.Update` | src/ui.rs:45-54 | `RevealOrNext` flips `revealed`, never changes the corpus, keeps the index when revealing, moves on to index `r % len`, which is in bounds, and preserves the index invariant |
| `Ui.Shown` | src/ui.rs:59-63 | the sentence read by the view is a member of the corpus (the read is in bounds) |
| `Ui.ButtonLabel` | src/ui.rs:74 | the button reads "Next" exactly when the translation is revealed, and "Reveal" exactly when it is hidden |
| `Ui.RevealThenNext` | src/ui.rs:47-54 | from the hidden state, a press keeps the sentence and reveals it; a second press hides it on the sentence picked by the second draw |
| `Ui.Run` | src/ui.rs:45-57 | any number of presses keeps the index valid and the corpus unchanged, and `revealed` flips once per press |
| `Ui.RunEvenPicksLastDraw` | src/ui.rs:48-50 | from the hidden state, after an even non-zero number of presses the translation is hidden and the index comes from the last draw |
| `Ui.RunOddReveals` | src/ui.rs:51-53 | from the hidden state, an odd number of presses ends on the state after the presses before the last one, with the translation revealed |
| `Ui.JapaneseSentanceApp.constructor` | src/ui.rs:30-39 | `new` loads the corpus from the file's text and establishes the object invariant in the state `Init` describes |
| `Ui.JapaneseSentanceApp.RevealOrNext` | src/ui.rs:45-54 | the in-place update keeps the invariant, leaves `sentances` alone and moves the fields exactly as `Update` does |
| `Ui.TwoPresses` | src/ui.rs:47-54 | a client pressing twice from the hidden state ends hidden, on the sentence of the second draw, with the corpus unchanged |

## Left out

- Reading the file (`std::fs::read_to_string(...).unwrap()`, src/sentances.rs:7-8) is I/O. The loader is modelled over the text it returns, so a missing file is not modelled.
- `rand::random::<usize>()` (src/ui.rs:35, src/ui.rs:50) is an external generator. Each draw is an arbitrary natural `r`, so the 64-bit bound on `usize` and the uniformity of the draws are not modelled.
- Ui.JapaneseSentanceApp.constructor: requires a successful load with at least one sentence. The source panics in both other cases (the `record[3]` index and `% 0`), and a panicking constructor has no result to model.
- The `Quit` arm of `update` (src/ui.rs:55) is `todo!()`, a panic with no behaviour, so `RevealOrNext` is the only message modelled.
- `view` is modelled only through the reads it makes (`Shown`) and the button caption (`ButtonLabel`). The layout, the black/transparent colour of the English text, `title`, `background_color`, `scale_factor`, `should_exit`, `run`, the `Default` impl and `button_state` belong to the GUI toolkit.
- src/main.rs (font embedding, window settings, launch) is not part of this model.
- Text is modelled as a sequence of characters rather than UTF-8 bytes. Tab, line feed and carriage return are single ASCII characters, so the lines and fields come out the same.
- `Lines` follows the documented behaviour of current Rust: a '\r' is removed only in front of a '\n'. A bare '\r' at the very end of the text stays in the last line. Rust releases from before the fix to `str::lines` for a trailing bare carriage return also removed that final '\r'. The model does not capture that older behaviour.
- Kanji-level tables, level filtering, a filter direction, and named errors for a malformed record or an empty working set do not exist in the modelled code. They are not modelled: the code panics instead, which the model shows as the `Failure` result of the loader and the non-empty precondition of `new`.
