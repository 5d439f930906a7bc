# txt_ml core, modelled in Dafny

This project models three pieces of the txt_ml text editor and proves properties about them:

- **AI completion manager** (`ai.dfy`, module `Ai`). It covers the selected model held in one shared cell and the length heuristic that picks it. It also covers the request that carries the model's wire name, the bounded queue of completed responses, and the background worker that drains that queue and tags each response with the model current when it is dequeued.
- **Editor tab state** (`editor.dfy`, module `Editor`). It covers the tabs, the index of the current tab and the configuration. It models opening a file into a new tab, saving the current tab, changing the theme, asking for a completion of the current tab, and the display title of a tab.
- **Syntax detection and HTML highlighting** (`syntax.dfy`, module `Syntax`). It covers the fixed extension table and the prioritised content classifier. It also covers how `highlight` frames its output: the escaping of `<` and `>`, the `<span style="color: rgb(r, g, b)">` wrapper around each fragment, and one `'\n'` per line of `str::lines`.

Two support modules hold shared pieces:

- `wrappers.dfy` has `Option` and `Result`.
- `text.dfy` has the string operations the code uses, substring search and single-character replacement, each with lemmas. It also has `CountChar`, a character count that exists only to state the newline and angle-bracket properties; the code itself counts nothing.

The mutable parts are classes:

- `Ai.AIManager` has the fields `model`, `queue` and `processed`.
- `Editor.TextEditor` has the fields `tabs`, `currentTab` and `config`.
- `highlight` keeps the Rust code's two loops. The loop over lines is `Syntax.Highlight` and the loop over fragments is `Syntax.PushSpans`. They are proved equal to a specification built from `Lines`, `RenderLine` and `JoinLines`.

Everything outside the program's own logic is a parameter. This covers the HTTP provider, the file system and syntect's styling:

- `Ai.Provider` is a function from request to result.
- `Editor.FileReader` and `Editor.FileWriter` are functions from path (and text) to an I/O result.
- `Syntax.Styler` is a function from the syntax, the lines already highlighted and the next line to the coloured fragments of that line, or to nothing when styling fails.

`str::lines` is modelled as current Rust releases define it. Lines split at `'\n'`, and one `'\r'` directly before a `'\n'` is dropped. Unterminated trailing text is one more line, which keeps a bare trailing `'\r'` (`Lines("a\r")` is `["a\r"]`). Older releases also stripped that final `'\r'`.

Rust's `str::len` is the length of the UTF-8 encoding. It is modelled as `Ai.Utf8Len` over Unicode scalar values, so the 100-byte threshold of `auto_select_model` is a threshold on bytes, not on characters.

## Model

| member | source | states |
|---|---|---|
| Ai.CharUtf8Len | src/ai/mod.rs:87 | one character takes one to four UTF-8 bytes, and exactly one when it is ASCII |
| Ai.Utf8LenBounds | src/ai/mod.rs:87 | the byte length of a text lies between its character count and four times that count |
| Ai.Utf8LenAscii | src/ai/mod.rs:87 | the byte length equals the character count exactly when every character is ASCII |
| Ai.SelectModel | src/ai/mod.rs:87-93 | the heuristic yields either `Default` or `Custom` of the text itself |
| Ai.SelectModelIgnoresNewlines | src/ai/mod.rs:87-93 | the result is `Default` if and only if the text is shorter than 100 bytes; otherwise it is `Custom(text)`, whether or not the text has a newline |
| Ai.ShortTextSelectsDefault | src/ai/mod.rs:87-88 | any text of fewer than 25 characters selects `Default`, whatever its characters |
| Ai.LongTextSelectsCustom | src/ai/mod.rs:87-93 | any text of at least 100 characters selects `Custom(text)` |
| Ai.TwoByteTextLength | src/ai/mod.rs:87 | a text of two-byte characters has twice as many bytes as characters |
| Ai.MultiByteTextSelectsCustom | src/ai/mod.rs:87-93 | 50 two-byte characters already count as a long text: the threshold is in bytes |
| Ai.LastSelectionWins | src/ai/mod.rs:95 | after a series of selections the cell holds the result of the last one only; in particular selecting with the same text twice gives the same cell as selecting once |
| Ai.RepeatedSelection | src/ai/mod.rs:85-96 | on a manager, calling `AutoSelectModel` twice with the same text, after any earlier selection, leaves the model that one call selects |
| Ai.BuildRequest | src/ai/mod.rs:51-56 | the prompt is the text; the wire name is "default" for `Default` and the identifier itself for `Custom(id)`, so it is "default" exactly for `Default` and for a custom model literally named "default" |
| Ai.SelectedModelNameInjective | src/ai/mod.rs:51-56 | on models the selector can produce, two selections give the same wire name if and only if they are the same model |
| Ai.ProcessCompletion | src/ai/mod.rs:70-82 | always succeeds; the printed line ends with the text and begins with the default-model wording if and only if the model is `Default` |
| Ai.TagAll | src/ai/mod.rs:30-36 | every item is processed, in order, under the given model, and every outcome is a success whose printed line ends with the item, so no item stops the loop |
| Ai.AIManager.constructor | src/ai/mod.rs:22-44 | a new manager holds `Default`, an empty queue and an empty trace |
| Ai.AIManager.AutoSelectModel | src/ai/mod.rs:85-96 | overwrites only the model cell, with the heuristic's result |
| Ai.AIManager.RequestCompletion | src/ai/mod.rs:47-67 | the provider is asked with the text and the current model's wire name; on success exactly that response is appended at the back of the queue and returned, and on failure the error is returned and the queue is unchanged |
| Ai.AIManager.WorkerStep | src/ai/mod.rs:30-35 | removes the front of the queue and records it tagged with the model current at that moment; on an empty queue nothing changes |
| Ai.AIManager.RunWorker | src/ai/mod.rs:29-37 | drains the queue front first, processing each queued response exactly once, in order, and no item stops the loop |
| Ai.TagsAtDequeueTime | src/ai/mod.rs:30-33 | a response requested under `Default` and dequeued after a long text was selected is tagged with the custom model |
| Ai.FailureQueuesNothing | src/ai/mod.rs:58-64 | after a failed request the worker finds nothing to process |
| Editor.TitleSpec | src/lib.rs:39-46 | the title is the file name when the path exists, ends in a normal component and that name is UTF-8; otherwise it is "Untitled" |
| Editor.NewTab | src/lib.rs:32-37 | a new tab has no path and no text, so its title is "Untitled" |
| Editor.TextEditor.constructor | src/lib.rs:50-59 | a new editor has no tabs, index 0 (out of range), the default configuration and a fresh manager holding `Default` with an empty queue |
| Editor.TextEditor.OpenFile | src/lib.rs:61-69 | on a read error nothing changes and the error is returned; otherwise exactly one tab with the path and the text read is appended and becomes current |
| Editor.TextEditor.SaveCurrentTab | src/lib.rs:71-78 | writes the current tab's text to its path exactly when the index is in range and the tab has a path, returning the write's result; otherwise it writes nothing and succeeds |
| Editor.TextEditor.SetTheme | src/lib.rs:80-82 | the configuration changes in its theme and nowhere else |
| Editor.TextEditor.GetAiCompletion | src/lib.rs:100-106 | with no current tab it answers `Ok("")` and queues nothing; otherwise it requests a completion of exactly the current tab's text |
| Editor.OpenThenSave | src/lib.rs:61-78 | opening a file and saving at once writes back exactly the text read, to the same path |
| Editor.NewEditorIsInert | src/lib.rs:100-106 | a new editor writes nothing on save and answers the empty string without calling the provider |
| Syntax.NewDetectorExtensions | src/syntax/mod.rs:77-94 | "rs" maps to "Rust" and "md" to "Markdown"; every other key, "txt" and any case variant included, gives "Plain Text" |
| Syntax.DetectFromContent | src/syntax/mod.rs:97-112 | the result is always "Plain Text", the Rust syntax's name or the Markdown syntax's name |
| Syntax.DetectFromContentSpec | src/syntax/mod.rs:97-112 | a Rust marker wins whenever the set has a Rust syntax; Markdown markers decide only otherwise; all else is plain text |
| Text.ContainsIffOccurs | src/syntax/mod.rs:100-106 | the scanning substring test holds exactly when the pattern occurs at some offset |
| Syntax.EscapeIsCharwise | src/syntax/mod.rs:45 | the two replacement passes together escape each character independently |
| Syntax.EscapeExcludes | src/syntax/mod.rs:45 | escaped text has no raw `<` or `>`, and no newline unless the input had one |
| Syntax.EscapeIdentity | src/syntax/mod.rs:45 | text without angle brackets, ampersands included, is left unchanged |
| Syntax.EscapeNotInjective | src/syntax/mod.rs:45 | because `&` is not escaped, a literal "&lt;" and a bare `<` produce the same HTML |
| Syntax.UnescapeEscape | src/syntax/mod.rs:45 | for text without `&`, reading the two entities back recovers the text |
| Syntax.DecimalString | src/syntax/mod.rs:39-44 | the `{}` formatting of a colour channel is never empty |
| Syntax.DecimalStringDigits | src/syntax/mod.rs:39-44 | the formatting consists of decimal digits only |
| Syntax.DecimalRoundTrip | src/syntax/mod.rs:39-44 | the formatted number reads back as the number |
| Syntax.ChannelsPlain | src/syntax/mod.rs:39-44 | the `r, g, b` text holds no angle bracket and no newline |
| Syntax.OpenTagAngles | src/syntax/mod.rs:39 | an opening tag holds exactly one `<` and one `>` |
| Syntax.CloseTagAngles | src/syntax/mod.rs:39 | the closing tag holds exactly one `<` and one `>` |
| Syntax.SpanAngles | src/syntax/mod.rs:38-45 | each span holds exactly two `<` and two `>`, those of its own tags, so fragment text cannot open or close an element |
| Syntax.RenderLineAngles | src/syntax/mod.rs:37-46 | the spans of a line of n fragments hold exactly 2n `<` and 2n `>`: one element per fragment |
| Syntax.SpanNoNewline | src/syntax/mod.rs:38-45 | a span has a newline only if its fragment text has one |
| Syntax.LinesNoNewline | src/syntax/mod.rs:34 | no line yielded by `str::lines` contains a newline |
| Syntax.LinesCount | src/syntax/mod.rs:34 | `str::lines` yields one line per `'\n'`, plus one for unterminated trailing text |
| Syntax.LinesJoin | src/syntax/mod.rs:34 | for text without carriage returns, the lines each followed by a newline give back the text, with a newline added after unterminated trailing text |
| Syntax.PushSpans | src/syntax/mod.rs:37-46 | the inner loop appends the span of every fragment, in the order the styler returned them |
| Syntax.Highlight | src/syntax/mod.rs:27-52 | the output is the rendered spans of each line of `str::lines`, each followed by `'\n'`, each line styled with the earlier lines as context; a line whose styling fails contributes only its newline |
| Syntax.HighlightNewlines | src/syntax/mod.rs:34-48 | for a styler whose fragments spell out their line, as syntect's slices of the line do, the output has exactly as many newlines as `str::lines` yields lines, that is, the input's newlines plus one for unterminated trailing text, even where styling failed |

## Left out

- Syntax.HighlightNewlines: assumes the styler's fragments for a line spell out exactly that line (`StylerCoversLines`), as the slices syntect's `highlight_line` returns do. A styler whose fragments held a newline would add newlines to the output, because escaping keeps them.
- The HTTP call in `request_completion` (reqwest, the URL, JSON serialisation) is the `Ai.Provider` parameter. Its two failure points, at `send` and at reading the body, are the two `Ai.Error` variants.
- Concurrency is not modelled. `tokio::spawn`, the `mpsc` channel and the `RwLock` are one sequential object, so interleavings, suspension at `await` and lock contention are outside the model.
- Ai.AIManager.RequestCompletion: `tx.send(..).await` waits while the channel is full; the model requires a free slot instead, so the waiting is not captured.
- Ai.AIManager.RequestCompletion: `send` can also fail when the worker has stopped. The worker never stops, so that error is not modelled.
- Editor.TextEditor.GetAiCompletion: inherits the free-slot requirement above when there is a current tab.
- The worker's `println!` and `eprintln!` output is modelled only as the `processed` trace. Each entry records the text, the model read at dequeue time and the line `process_completion` prints.
- The worker loop waits forever on an empty channel. `RunWorker` models the loop only until the queue is empty.
- The `EditorConfig` fields not touched by the modelled operations are left out: the `f32` font size, the config and plugin paths, the syntax-theme table and the key bindings. Loading, saving and `get_theme_css` in src/config/mod.rs are not part of this model, because they are file I/O and bundled CSS.
- `get_theme_css` in src/lib.rs is not modelled, because it only forwards to the configuration's CSS lookup.
- `read_to_string` and `write` from `std::fs` are the `Editor.FileReader` and `Editor.FileWriter` parameters.
- Paths are abstracted:
  - A path is given by its components after `Path::components` normalisation. Windows prefixes are not modelled.
  - An OS string is either valid UTF-8 text or raw non-UTF-8 bytes. The UTF-8 decoder behind `to_str` is not modelled.
- syntect is not modelled:
  - A syntax set is reduced to its names and its extension table.
  - Theme loading, `SyntaxHighlighter::new`, `SyntaxDetector::new`'s loading of the default syntaxes, `get_available_syntaxes` and `get_available_themes` are left out.
  - Per-token styling is the `Syntax.Styler` parameter. Its parse state from line to line is represented by passing it the lines already highlighted.
- `process_through_plugins` and `get_plugin_commands` forward to the plugin manager. The plugins module is not part of this model.
- The egui interface (src/ui/mod.rs, the `eframe::App` implementation) and program start-up (src/main.rs) are not modelled.
