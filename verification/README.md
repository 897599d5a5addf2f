# prediput dialogs and validated prompts, modelled in Dafny

prediput is a small command-line prompting library. This project models its
three core pieces:

- **The single-select dialog** (`src/select.rs`, module `Select`). A
  `Selection` configuration record is built by chained record updates. Its
  `prompt` prints padding, a message and blank lines. It then loops: clear the
  option rows, draw them again (prefix, selected-text, alignment), hide the
  cursor, and read a key. ArrowUp and ArrowDown move the cursor with
  wrap-around. Enter returns the whole option tuple; if the dialog erases
  itself it first asks for `options + padding + 1` lines to be cleared, and it
  always shows the cursor again.
- **The earlier dialog** (`src/selection.rs`, module `EarlySelection`). It has
  the same loop, without padding, alignment, selected-texts or erasing. Its
  `opt` pushes onto the dialog's own option list, so it is a class.
- **The validated text prompt** (`src/prompting.rs`, module `Prompting`).
  Predicates pair a validation function with a message. A builder collects
  them in order. The prompt loop prints the prompt and tries each attempt in
  turn: a read error, a conversion error or the first failing predicate is
  answered with one line and the loop asks again. The first value every
  predicate passes is returned.

Shared pieces:

- `Navigation`: the keys, the wrap-around arithmetic, and `Decide`, which is
  where a dialog's loop ends for a finite script of key reads.
- `Terminal`: the output operations as events, and `Height`, the net number
  of lines a run of events leaves on screen, counting one screen line per
  printed text.
- `Wrappers`: `Option`.
- `Sequences`: two facts about appending sequences.

The terminal is modelled as data:

- Key input is a script of reads (`seq<Read>`), each a key or an I/O failure.
- Output is a trace of events (`Print`, `Println`, `ClearLastLines`,
  `HideCursor`, `ShowCursor`).
- A finite script that runs out before Enter ends in `Blocked`: the real loop
  would still be waiting for a key.
- Each `prompt` is a method with the source's loop. Each dialog's `Prompt`
  is proved to return `SessionOutcome`/`Resolve(Decide(..))` and to write
  exactly `SessionTrace`; the text prompt's `Prompt` is proved to return and
  write what `Session` gives. Those specification functions are the subject
  of the lemmas.

Three details of the code that the model keeps:

- The `prefix` field is documented as the text printed ahead of the selected
  item (`src/select.rs:17-18`). The row match prints it only when the
  selected option has a selected-text; a selected option without one is
  drawn as its display text alone (`src/select.rs:152`). The model follows
  the match.
- `prompt` returns the whole option tuple, not only its value.
- The alignment width is the override if set, otherwise the grapheme count of
  the prefix (`src/select.rs:130`). Escape sequences in a prefix are counted
  as graphemes, which is why the builder docs advise setting the override for
  coloured prefixes (`src/select.rs:70`, `src/select.rs:80`). The grapheme
  count is a parameter `graphemes: string -> nat` of the model.

## Model

| member | source | states |
|---|---|---|
| Navigation.Up | src/select.rs:175-183 | ArrowUp keeps the cursor in `[0, n)`: from 0 it wraps to `n - 1`, otherwise it moves to `i - 1` (same in src/selection.rs:79-85) |
| Navigation.Down | src/select.rs:185-192 | ArrowDown keeps the cursor in `[0, n)`: from `n - 1` it wraps to 0, otherwise it moves to `i + 1` (same in src/selection.rs:87-93) |
| Navigation.UpDownInverse | src/select.rs:175-192 | ArrowUp followed by ArrowDown, or the reverse, returns the cursor to where it was |
| Navigation.Navigate | src/select.rs:174-207 | after any key the cursor is in range; every key other than the arrows leaves it unchanged (the `_ => {}` arm) |
| Navigation.NavigateAll | src/select.rs:143-207 | any run of keys keeps the cursor in `[0, n)` |
| Navigation.NavigateIsStepMod | src/select.rs:175-192 | one key moves the cursor to `(i + step) mod n`, step being +1 for ArrowDown, -1 for ArrowUp, 0 otherwise |
| Navigation.NavigateAllCongruent | src/select.rs:143-207 | after any keys the cursor is the start moved by (#ArrowDown - #ArrowUp), modulo n |
| Navigation.Decide | src/select.rs:143-207 | a loop that confirms always confirms an index below n, so the Enter lookup cannot fail |
| Navigation.DecideStep | src/select.rs:173-207 | a failed read ends the loop with an error; Enter confirms the current cursor; any other key continues from the moved cursor |
| Navigation.NavigateThenDecide | src/select.rs:143-207 | navigating keys before the rest of a script only move the cursor |
| Navigation.ConfirmedIndex | src/select.rs:194-198 | keys then Enter confirm `(default + #ArrowDown - #ArrowUp) mod n` |
| Navigation.Resolve | src/select.rs:194-198 | the dialog returns an option exactly when Enter was pressed, and that option is `options[index]`; it reports an I/O error exactly when a read failed |
| Navigation.WrapI32 | src/select.rs:179-181 | `i32` arithmetic wraps into `[-2^31, 2^31)` and is exact inside that range |
| Navigation.RemTrunc | src/select.rs:179-181 | Rust's `%` agrees with the mathematical remainder on non-negative operands and lies in `(-b, 0]` on negative ones |
| Navigation.UpAsWritten | src/select.rs:179-181 | the 32-bit ArrowUp computation equals `Up` exactly when `i - 1 + n` fits in an `i32`; beyond that it lands on 0 or outside the options |
| Navigation.UpAsWrittenOverflows | src/select.rs:179-181 | with 2^31 - 1 options and the cursor on the last, the 32-bit ArrowUp computation leaves the cursor outside the options |
| Select.New | src/select.rs:34-44 | a new dialog has default index 0, no padding, no alignment, no width override, no erasing, and the given prefix and options |
| Select.Selection.Opt | src/select.rs:47-56 | the option is appended after the existing ones; every other field is unchanged |
| Select.Selection.Padding | src/select.rs:60-65 | sets the padding and changes nothing else |
| Select.Selection.Prefix | src/select.rs:71-76 | sets the prefix and changes nothing else |
| Select.Selection.OverridePrefixLen | src/select.rs:84-89 | sets the width override to `Some(len)` and changes nothing else |
| Select.Selection.Aligned | src/select.rs:93-98 | turns alignment on and changes nothing else |
| Select.Selection.ClearAfter | src/select.rs:102-107 | turns erasing on and changes nothing else |
| Select.Selection.DefaultOpt | src/select.rs:111-116 | sets the default index and changes nothing else |
| Select.Selection.PrefixWidth | src/select.rs:130 | the alignment width is the override when one is set and the prefix's grapheme count (escape bytes included) otherwise |
| Select.BuildersCommute | src/select.rs:47-116 | any two configuration steps (`opt`, `padding`, `prefix`, `override_prefix_len`, `aligned`, `clear_after`, `default_opt`) that write different fields give the same dialog in either order |
| Select.LaterStepWins | src/select.rs:60-116 | of two steps other than `opt` that write the same field, the later one alone decides it |
| Select.WidthFromBuilders | src/select.rs:130 | the alignment width is the override once one is set, whatever the prefix; without one it is the prefix's grapheme count |
| Select.Spaces | src/select.rs:155-158 | the indentation has exactly `k` characters, all spaces |
| Select.BuildSpacing | src/select.rs:155-158 | the push loop builds exactly `k` spaces |
| Select.Row | src/select.rs:150-164 | every case of the row match is a lead (the prefix on a selected row with a selected-text, the indentation on an unselected row of an aligned dialog, nothing otherwise) followed by the option's own text (its selected-text while selected and present, its display text otherwise) |
| Select.RenderRow | src/select.rs:150-164 | the formatted row is that lead followed by that text |
| Select.Frame | src/select.rs:148-169 | a frame has exactly one row per option |
| Select.MoveRedrawsTwoRows | src/select.rs:148-169 | moving the cursor from `j` to `k` leaves every row other than `j` and `k` identical |
| Select.AlignedRowsShareColumn | src/select.rs:130-164 | in an aligned dialog without override, an unselected row is exactly `graphemes(prefix)` spaces then its display text, and the selected row with a selected-text is the prefix then that text |
| Select.SelectionWithoutSelectedTextUnmarked | src/select.rs:150-152 | a selected option without a selected-text is drawn as its bare display text, the same as when unselected (unaligned dialog) |
| Select.RenderFrame | src/select.rs:145-171 | one pass clears `options.len()` lines, prints every row in index order, then hides the cursor |
| Select.Preamble | src/select.rs:132-141 | the output before the loop has `padding + 1 + options` lines: the message at position `padding`, blank lines everywhere else |
| Select.PrintPreamble | src/select.rs:132-141 | before the loop: `padding` blank lines, the message, one blank line per option |
| Select.Closing | src/select.rs:199-203 | the output on Enter ends with the cursor shown, and has the extra erase request exactly when erasing is on |
| Select.ClosingErasesDialog | src/select.rs:199-201 | counting one screen line per printed text, each frame leaves the number of lines on screen unchanged, and the erase request on Enter removes exactly the lines the preamble left: the whole dialog including the message line |
| Select.Close | src/select.rs:199-203 | on Enter: a request to clear `options + padding + 1` lines if erasing is on, then the cursor shown |
| Select.LoopTrace | src/select.rs:143-207 | definition of the loop's output from a cursor position: a frame, then nothing (failed read, no key yet), the closing output (Enter), or the loop again from the moved cursor; its properties are `LoopTraceStep` and `LoopTraceEnding` |
| Select.LoopTraceStep | src/select.rs:143-207 | one loop pass writes a frame, then stops on a failed read, closes on Enter, or continues from the moved cursor |
| Select.Prompt | src/select.rs:127-209 | the loop returns `Resolve(Decide(..))` for the script and writes exactly the preamble followed by the loop's frames and closing output |
| Select.LoopTraceEnding | src/select.rs:143-207 | the loop's output ends with the cursor shown exactly when an option is confirmed; with erasing on, that is preceded by the request to clear `options + padding + 1` lines; otherwise it ends with the cursor hidden |
| Select.SessionEnding | src/select.rs:127-209 | the prompt's last output is the cursor shown again exactly when it returns an option, and the hidden cursor otherwise |
| Select.ConfirmedOption | src/select.rs:194-198 | keys then Enter return the whole option at `(default + #ArrowDown - #ArrowUp) mod n` |
| Select.ReadFailureAborts | src/select.rs:174 | a failed key read after any navigating keys ends the prompt with an I/O error |
| Select.ScenarioDownThenEnter | src/select.rs:185-198 | two options, cursor on the first: ArrowDown then Enter returns the second option |
| Select.ScenarioUpWraps | src/select.rs:175-183 | four options, cursor on the first: ArrowUp then Enter returns the last |
| Select.ScenarioClearAfter | src/select.rs:199-201 | three options, padding 1, erasing on: Enter asks for 5 lines to be cleared |
| EarlySelection.Selection.constructor | src/selection.rs:22-28 | a new dialog has default index 0 and the given prefix and options |
| EarlySelection.Selection.Opt | src/selection.rs:31-34 | pushes the option after the existing ones; prefix and default are unchanged |
| EarlySelection.Selection.Prefix | src/selection.rs:37-42 | sets only the selected prefix |
| EarlySelection.Selection.SetDefault | src/selection.rs:45-50 | sets only the default index |
| EarlySelection.BuildInOrder | src/selection.rs:22-50 | a dialog built with one option, given a new prefix and default, then another option, has both options in order and the new prefix and default |
| EarlySelection.Frame | src/selection.rs:71-73 | a frame has exactly one row per option |
| EarlySelection.Row | src/selection.rs:72 | definition of a row: the prefix on the selected row only, then the option's text; its property is `FrameMarksOnlySelected` |
| EarlySelection.FrameMarksOnlySelected | src/selection.rs:71-73 | row `i` is `prefix ++ text` when `i` is selected and the text alone otherwise |
| EarlySelection.Selection.RenderFrame | src/selection.rs:69-75 | one pass clears `options.len()` lines, prints every row in order, then hides the cursor |
| EarlySelection.LoopTrace | src/selection.rs:68-102 | definition of the loop's output from a cursor position: a frame, then nothing (failed read, no key yet), the cursor shown (Enter), or the loop again from the moved cursor; its properties are `LoopTraceStep` and `LoopTraceEnding` |
| EarlySelection.LoopTraceStep | src/selection.rs:68-102 | one loop pass writes a frame, then stops on a failed read, shows the cursor on Enter, or continues from the moved cursor |
| EarlySelection.Selection.Prompt | src/selection.rs:54-103 | the loop returns `Resolve(Decide(..))` for the script and writes exactly the message, the blank lines and the loop's output |
| EarlySelection.LoopTraceEnding | src/selection.rs:68-102 | the loop's output ends with the cursor shown exactly when an option is confirmed, and hidden otherwise |
| EarlySelection.SessionEnding | src/selection.rs:54-103 | the prompt's last output is the cursor shown again exactly when it returns an option, and the hidden cursor otherwise |
| EarlySelection.ConfirmedChoice | src/selection.rs:79-98 | keys then Enter return the option at `(default + #ArrowDown - #ArrowUp) mod n` |
| Prompting.PredicateKeepsParts | src/prompting.rs:17-32 | `validate` applies exactly the stored function; `invalid_msg` returns exactly the stored message |
| Prompting.FirstFailure | src/prompting.rs:80-88 | a rejection reports the message of a predicate that fails |
| Prompting.AcceptIffAllPass | src/prompting.rs:80-88 | a converted value is accepted if and only if every predicate passes |
| Prompting.RejectNamesFirstFailing | src/prompting.rs:80-86 | when predicate `k` fails and all earlier ones pass, its message is reported, whatever the later ones say |
| Prompting.RejectComesFromFailing | src/prompting.rs:80-86 | every rejection reports the message of a failing predicate all of whose predecessors pass |
| Prompting.LaterPredicatesTestedLast | src/prompting.rs:45 | appending predicates cannot change a rejection by the earlier ones; after an acceptance the verdict is the new predicates' |
| Prompting.Complaint | src/prompting.rs:76-98 | an attempt draws no complaint line exactly when it converts and every predicate passes |
| Prompting.ComplaintNamesCause | src/prompting.rs:80-98 | the complaint line is the fixed read-error message for a failed read, the prompt's conversion message for a failed conversion, and the first failing predicate's message for a rejected value |
| Prompting.Session | src/prompting.rs:72-100 | a run that returns nothing wrote two events per attempt; one that returns a value wrote an odd number, fewer than two per attempt |
| Prompting.SessionStep | src/prompting.rs:72-100 | each attempt prints the prompt; an accepted value ends the loop; otherwise one complaint line is printed and the loop goes on |
| Prompting.SessionAcceptsFirstValid | src/prompting.rs:72-100 | a returned value is the first attempt that converts and passes every predicate, every earlier attempt was complained about, and the output has `2k + 1` events, `k` being the number of earlier attempts; if nothing is returned, every attempt was complained about |
| Prompting.SessionWritesComplaints | src/prompting.rs:72-100 | when attempt `k` is the first that draws no complaint, its value is returned and the output is, for each earlier attempt in order, the prompt then that attempt's complaint line, and finally the prompt of attempt `k` |
| Prompting.SessionRejectsFirstValue | src/prompting.rs:80-86 | a rejected value prints the prompt and its first failure's message, then the loop continues with the rest |
| Prompting.SessionReportsEachFirstFailure | src/prompting.rs:72-100 | for rejected values then an accepted one, the output alternates the prompt and each value's first failure message, ends with the prompt, and the accepted value is returned |
| Prompting.Prompt | src/prompting.rs:70-101 | the labelled loop returns the value and writes the output given by `Session` for the script |
| Prompting.PromptBuilder.Builder | src/prompting.rs:61-66 | a builder starts with the conversion message and no predicates |
| Prompting.PromptBuilder.Pred | src/prompting.rs:121-124 | the predicate is pushed after the existing ones; the message is unchanged |
| Prompting.PromptBuilder.Build | src/prompting.rs:127-132 | the prompt gets the builder's message and predicates unchanged |
| Prompting.PredTestedLast | src/prompting.rs:121-124 | a predicate added last is consulted only when all earlier ones pass, and then decides alone |
| Prompting.BuildInOrder | src/prompting.rs:61-66 | building with two predicates gives a prompt that tests them in the order added |

## Left out

- Terminal I/O through the `console` crate (`Term::stdout`, `read_key`, `clear_last_lines`, `hide_cursor`, `show_cursor`) and `println!`: modelled as a script of reads and a trace of output events. Only `read_key` may fail in the model; a failure of the other terminal calls is not modelled.
- Grapheme counting (`unicode_segmentation`): a parameter `graphemes: string -> nat`, since it is library code.
- The empty option list and a default index outside the options: `Prompt` requires `0 < |options|` and `defaultIndex < |options|`. With no options the source panics on any arrow key or Enter. With an out-of-range default, Enter panics before any arrow key. An ArrowDown would first bring the cursor back into range, and so would an ArrowUp for a default below 2^31 - n + 1 (2^63 - n + 1 in src/selection.rs); a larger default is truncated by the `i32` (`i64`) cast and ArrowUp can leave the cursor outside the options. Neither the panic nor these arrow moves from an out-of-range cursor are modelled.
- The `selected_index as isize == -1` branches (src/select.rs:176-177, 186-187; src/selection.rs:80-81, 88-89): unreachable while the cursor is below the number of options.
- Navigation.Up: stated on unbounded integers. The 32-bit computation of src/select.rs:179-181 is modelled separately as `UpAsWritten`, see Findings. src/selection.rs:83 uses 64-bit integers and cannot overflow for any vector length.
- Reading a line and parsing it with `FromStr` (src/prompting.rs:74-78): each attempt is given as an `Attempt` (read failed, conversion failed, or converted value).
- A prompt loop that never receives an acceptable value does not return; the model runs a finite script and reports what was printed.
- src/lib.rs (`prompt`, `input`, and the other I/O helpers), src/macros.rs and examples/pokemon_dialog.rs are not part of this model. The inline prompt that `input` prints before every attempt is modelled as a `Print` event.
- Select.ClosingErasesDialog: `Height` counts one screen line per printed text. A message, prefix or option text that contains a line break, or is wider than the terminal, takes more screen lines than that, and then the per-frame clear (src/select.rs:145, src/selection.rs:69) and the final erase (src/select.rs:201) fall short: the dialog moves down the screen on each key and part of it stays after the erase. The lemma states the accounting for texts that fit on one line; terminal width and line breaks are not modelled.
- Escape sequences in a prefix: the alignment width counts their bytes as graphemes unless `override_prefix_len` is set (src/select.rs:70, 80, 130); the model keeps that behaviour and does not interpret escape sequences.

## Findings

| source | as written | input that shows it | evidently intended | confidence | as-written member | corrected member |
|---|---|---|---|---|---|---|
| src/select.rs:179-181 | ArrowUp computes `(selected_index as i32 - 1 + len as i32) % len as i32` in 32-bit signed arithmetic | 2^31 - 1 options, cursor on the last (index 2^31 - 2), ArrowUp: `i - 1 + n` exceeds `i32::MAX`. It wraps to -4 in a release build (a debug build panics), and `-4 as usize` is far outside the options | `(i - 1 + n) mod n` without overflow, as src/selection.rs:83 does in 64 bits | low (needs 2^31 options); not executed | Navigation.UpAsWrittenOverflows | Navigation.Up |
