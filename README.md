# Scenario player, markdown-driven version: a Dafny model

This project models the core of an early version of a terminal "scenario player". The player shows a series of text screens. It moves from one screen to the next when the user types one of the characters listed as that step's key. The scenario comes from a markdown document:

- every top-level fenced code block tagged `screen` is a screen;
- every inline code span that is a direct span of a top-level paragraph is a key;
- the i-th screen is paired with the i-th key, in document order.

Besides a small `Wrappers` module holding `Option`, the model has seven modules:

- `Markdown`: the library's blocks and spans, reduced to the variants the parser looks at (a code block with its optional language, a paragraph, inline code) plus one catch-all variant each.
- `Seqs`: the iterator adaptors the parser is built from (`flat_map`, `filter_map`, `zip`), written as recursive functions. `Kept` is an index-based reference description of what a filter-map keeps.
- `Parser`: screen and key extraction, and the pairing done by `read_markdown`. The file read and the tokenizer are not modelled; the parser starts from the token blocks.
- `Content`: one step of the scenario, a screen and its key string.
- `Tui`: the input events (termion's event kinds, with keys reduced to Escape, a character and one catch-all) and the `UI` value the view returns.
- `App`: the navigation state machine. It has the model (steps plus a cursor `pos`), `app` (here `Start`), `update` and `view`. `update` takes the model by value and returns `Option<Model>`, so it is a pure step function here. The clamped index `min(pos, len - 1)` is `Index`.
- `Play`: the control rule of the terminal loop. It is a pure fold over a finite event sequence (`Loop`, `Run`) and also the imperative loop itself (`RunLoop`), proved equal to the fold. Each rendered frame is recorded as a value instead of being drawn.

This source has no chord grammar, no transition table and no word-typing expander, so none is modelled.

Preconditions follow the places where the code would panic:

- `update` computes `len() - 1` and indexes `content` only for a character key, so `Update` needs non-empty content only for character events.
- `view` always indexes `content`, so `View` always needs non-empty content.
- `Parser.ReadMarkdownNonEmpty` states exactly which documents give non-empty content.

## Model

| member | source | states |
|---|---|---|
| App.Start | src/main.rs:23-28 | no contract of its own: what `app` promises is stated by `App.StartShowsFirstScreen` |
| App.StartShowsFirstScreen | src/main.rs:23-28 | a fresh app starts at the first step, so its first view is the first step's screen |
| App.Index | src/main.rs:35 | `min(pos, len - 1)` is a valid index for any cursor, even past the end; it is `pos` while `pos < len` and the last index once `pos >= len - 1` |
| App.Update | src/main.rs:31-45 | the result is `None` exactly on Escape; `content` never changes; `pos` stays or grows by exactly one; it grows exactly when the event is a character contained in the current step's key; any other event returns the model unchanged |
| App.View | src/main.rs:47-52 | shows step `pos`'s screen while `pos` is in range, and the last screen whenever `pos >= len - 1` |
| App.ViewStaysOnLastScreen | src/main.rs:31-52 | once the cursor is at the last step or beyond, no event changes what is shown |
| App.KeyAdvancesScreen | src/main.rs:34-41 | typing a key character of the current step, before the last step, moves to the next step and shows its screen |
| Parser.BlockToScreen | src/main.rs:102-107 | a code block with language exactly `screen` gives exactly its text; any other language, no language, or any other block gives nothing |
| Parser.SpanToKey | src/main.rs:119-124 | an inline code span gives its text; any other span gives nothing |
| Parser.BlockToKey | src/main.rs:109-117 | a block that is not a paragraph gives no keys; a paragraph gives at most one key per span |
| Parser.ParagraphKeys | src/main.rs:110-114 | a paragraph's keys are the texts of all of its code spans and nothing else, in span order |
| Parser.Screens | src/main.rs:83-86 | no contract of its own: its meaning is stated by `Parser.ScreensAreScreenBlocks` and `Parser.ScreensInDocumentOrder` |
| Parser.Keys | src/main.rs:88-91 | no contract of its own: its meaning is stated by `Parser.KeysInDocumentOrder` |
| Parser.KeysInDocumentOrder | src/main.rs:88-91 | the keys are the texts of all inline code spans that are direct spans of top-level paragraphs, and nothing else, listed by (block, span) position in document order |
| Parser.ScreensAreScreenBlocks | src/main.rs:83-86 | collecting the flat-mapped screens is the same as filtering the blocks for `screen` code blocks |
| Parser.ScreensInDocumentOrder | src/main.rs:83-86 | the screens are the texts of all top-level `screen` code blocks and nothing else, in document order |
| Parser.ReadMarkdown | src/main.rs:93-97 | there are `min(#screens, #keys)` steps, and step i is (i-th screen, i-th key) |
| Parser.ReadMarkdownNonEmpty | src/main.rs:83-97 | the result is non-empty exactly when the document has a top-level `screen` code block and a top-level paragraph with an inline code span as a direct span |
| Parser.PairingIgnoresInterleaving | src/main.rs:83-97 | for any part of a document without screens and any part without keys, the pairing is the same whichever part comes first, so a key written before its screen still pairs with it |
| Seqs.Min | src/main.rs:35 | `std::cmp::min`: the result is at most either argument and is one of them |
| Seqs.FlatMap | src/main.rs:85 | no contract of its own: its meaning is stated by `Seqs.FlatMapAppend` and `Seqs.FlatMapEmpty` |
| Seqs.FilterMap | src/main.rs:111-114 | the adaptor never yields more values than it has inputs |
| Seqs.FilterMapKept | src/main.rs:111-114 | the adaptor yields the values at exactly the positions where the mapping succeeds, in ascending order |
| Seqs.FilterMapEmpty | src/main.rs:111-114 | a filter-map is empty exactly when the mapping fails on every element |
| Seqs.FlatMapAppend | src/main.rs:83-91 | flat-mapping a concatenation concatenates the results |
| Seqs.FlatMapEmpty | src/main.rs:88-91 | a flat-map is empty exactly when every element maps to nothing |
| Seqs.Zip | src/main.rs:93-95 | zipping gives `min` of the two lengths, and pair i is (a[i], b[i]) |
| Play.Loop | src/main.rs:165-176 | the loop consumes events up to the first Escape or the end; it renders one frame per accepted event; it quits exactly when an Escape occurs and stops at the first one; `content` is unchanged; `pos` never decreases and grows by at most one per frame; every frame shows one of the scenario's screens |
| Play.Run | src/main.rs:153-176 | the first frame is the initial view; at most one more frame per event, and exactly one per event when the events run out without an Escape |
| Play.LastFrameIsFinalView | src/main.rs:163-176 | the last frame rendered is the view of the model the loop ends with; a loop that renders nothing ends with the model it started from |
| Play.EventsAfterEscIgnored | src/main.rs:168-170 | events after the first Escape have no effect |
| Play.IgnoredEventRerenders | src/main.rs:43 | an event other than Escape or a character renders the same screen again and leaves the rest of the run as it was |
| Play.RunLoop | src/main.rs:165-176 | the imperative loop, which breaks on `None` from `update` or from the queue, yields exactly the fold `Run` |

## Left out

- `main` and its argument handling (src/main.rs:3-12): process and command-line glue.
- `read_to_string` and `markdown::tokenize` (src/main.rs:80-81): file I/O and a foreign library. The parser takes the token blocks as input, so the I/O error path of `read_markdown` is not modelled.
- Markdown blocks and spans other than code blocks, paragraphs and inline code are each one catch-all variant. The parser only tells those variants apart.
- Nested markdown content is not searched, as in the source: it lies inside the catch-all variants. Block quotes, list items and headers are `OtherBlock`; emphasis, strong text and links are `OtherSpan`. A `screen` code block in a block quote or list item is therefore not a screen. A code span inside emphasis, a link, a header or a list item is not a key.
- `init_tui` (raw mode, alternate screen, hidden cursor, mouse), `listen_events` (the stdin thread and its channel), `wait_for_event` and `render` (src/main.rs:179-218): terminal I/O and concurrency. The queue is a finite event sequence that ends when the producer closes. A render is recorded as the `UI` value handed to it.
- `tui::run` and the `App` record are generic over any model with `update`/`view` fields (src/main.rs:143-158). `Play` instantiates them with the app's own `Update` and `View`, the only instance in this program.
- Play.Loop: when the loop stops on Escape, the session reports the model from just before the Escape. The source drops that model instead.
- App.Update: `pos` is an unbounded `nat`, so the `usize` overflow of `pos += 1` after 2^64 accepted characters is not modelled.
- `String::contains(char)` is sequence membership on `seq<char>`. UTF-8 encoding is not modelled.
- The underflow of `len() - 1` on empty content, and the out-of-range index that follows in `update` and `view`, are preconditions, not an error path. The source does not handle them; it panics.
