# Chat bot command core: argument lexer, meeting agenda, polls

This project models, in Dafny, the three pieces of real logic inside a Discord
bot's command handlers, and proves properties of them.

- **The argument lexer** (`ArgLexer`, `arglexer.dfy`). `lex_args` drops the
  command word up to the first space. It then scans the rest with one cursor:
  - An alphanumeric character starts a word. `lex_word` takes the maximal
    alphanumeric run and also swallows the one character that ends it.
  - A double quote starts a sentence. `lex_sentence` takes everything up to
    the next double quote, or to the end of the text, and swallows the
    closing quote.
  - Any other character is skipped.

  The three functions are imperative methods (`LexWord`, `LexSentence`,
  `LexArgs`) with cursor loops. They are proved against the recursive
  reference `TokensFrom`/`Lex`, and the properties of the reference are
  proved as lemmas: tokens are ordered non-overlapping slices, words are
  maximal alphanumeric runs, sentences lie strictly between quotes, and so
  on. The five unit tests of the lexer are lemmas too.
- **The meeting agenda** (`Agenda`, `agenda.dfy`). This is a list of entries
  kept between `!agenda` commands, modelled as the class `Agenda.Agenda`
  holding a `seq<string>`. The sub-commands are:
  - `add` pushes one formatted entry (`Add`);
  - `clear` empties the list (`Clear`);
  - `show` renders the list as a message for the `meetings` channel;
  - `export` renders it as a markdown document with a file name and caption;
  - any other word gets the failure reaction.

  `Run` handles one message. It is specified by the pure dispatch
  `Dispatch`, which returns an `Outcome` (a reaction, a posted text, an
  attached document, or an error) and the new list.
- **Poll formatting** (`Poll`, `poll.dfy`). The message is split on `' '`
  and the command word is dropped. The first remaining piece is the title
  and the rest are the options. Options are zipped with the nine keycap
  emojis, so at most nine option lines and nine reactions are produced.
- **Shared text helpers** (`Text`, `text.dfy`). These model Rust's
  `split(' ')` (empty pieces kept), `join`, `find`, `replace(c, "")` and the
  `split(' ').skip(1)` argument list the handlers share, with round-trip
  lemmas between split and join.

Text is `seq<char>`, one index per character. The lexer slices by byte, so
this agrees with it on ASCII text. The clock, the upper-casing of the poll
title and the outcome of the `meetings` channel lookup are parameters.

Where the documented intent and the code differ, the model follows the code:
- An unterminated quote is not an error in the lexer. The sentence runs to
  the end of the text (`UnterminatedSentence`). The `mismatched_quotations`
  test panics only because its expected tokens differ from the result
  (`MismatchedQuotations`, `MismatchedQuotationsDiffer`).
- `export` of an empty agenda writes the dated heading alone. Only `show`
  has the "No items recorded" text (`RenderedEntries`).
- The only sub-commands are `add`, `show`, `export` and `clear`; there are
  no aliases. The list is held in memory, with no durable encoding.

## Model

| member | source | states |
|---|---|---|
| Text.IndexOf | src/arglexer.rs:23 | `find(c)`: the index of the first `c`, where no earlier character is `c`; the index equals the length exactly when `c` does not occur |
| Text.Split | src/agenda.rs:37 | `split(c)` yields at least one piece, and no piece contains `c` |
| Text.JoinSplit | src/agenda.rs:37 | joining the pieces of `split(c)` with `c` gives back the original text |
| Text.SplitJoin | src/poll.rs:40-45 | splitting a join of `c`-free pieces (at least one) gives back exactly those pieces |
| Text.SplitAtFirst | src/agenda.rs:37 | the split of a text holding `c` is its head before the first `c`, followed by the split of everything after it |
| Text.ConcatSnoc | src/agenda.rs:70 | `join("")` of a list with one more item at the tail is the old text followed by that item |
| Text.Remove | src/agenda.rs:44 | `replace("*", "")` leaves no `*` |
| Text.RemoveAbsent | src/agenda.rs:44 | a name without `*` is left unchanged |
| Text.RemoveAppend | src/agenda.rs:44 | removing `*` from two joined texts equals removing it from each |
| Text.RemoveDropsOnly | src/agenda.rs:44 | exactly the `*` characters are dropped: every other character keeps its count, and a lone `*` becomes empty |
| Text.Join | src/poll.rs:45 | `join(sep)`; characterised by `JoinSplit` and `SplitJoin` as the inverse of `split` |
| Text.Concat | src/agenda.rs:70 | `join("")`; `ConcatSnoc` states that one more item adds exactly that item at the tail |
| Text.CommandArgs | src/poll.rs:29 | `split(' ').skip(1)` is non-empty exactly when the message holds a space |
| Text.CommandArgsOf | src/agenda.rs:37 | the arguments are the split of everything after the first space |
| Text.CommandArgsWords | src/poll.rs:29 | a command word followed by space-free words joined by spaces yields exactly those words |
| ArgLexer.RunEndFinds | src/arglexer.rs:4-7 | the position search passes over alphanumeric characters only, and stops at the first other one or at the end |
| ArgLexer.ArgumentText | src/arglexer.rs:23-24 | the scanned text is the suffix right after the first space, and no earlier character is a space |
| ArgLexer.CommandWordIgnored | src/arglexer.rs:23-24 | for any command word without a space, the scanned text is exactly what follows the first space |
| ArgLexer.WordAt | src/arglexer.rs:3-10 | an alphanumeric run ending at `e` is the next token, and the cursor moves past the one character that ends it |
| ArgLexer.SentenceAt | src/arglexer.rs:12-19 | a quote whose sentence ends at `e` (the next quote or the end) yields the text strictly between, and the cursor moves past the closing quote |
| ArgLexer.SkipAt | src/arglexer.rs:30-37 | a character that is neither alphanumeric nor a quote starts no token |
| ArgLexer.LexWord | src/arglexer.rs:3-10 | returns a non-empty alphanumeric word, the slice at the cursor; the next cursor is exactly one past the word (the ending character is swallowed) or the end of the text, and that character is not alphanumeric; the word is the next token of the reference lexer |
| ArgLexer.LexSentence | src/arglexer.rs:12-19 | returns the quote-free text after the opening quote; the next cursor is exactly one past the closing quote, or the end of the text when there is none; it is the next token of the reference lexer |
| ArgLexer.LexArgs | src/arglexer.rs:21-41 | requires a space (otherwise `unwrap` panics); returns exactly the reference tokens of the text after the first space |
| ArgLexer.SpansWellFormed | src/arglexer.rs:27-40 | every token span is a non-empty alphanumeric run reaching the first non-alphanumeric character (or the end), or the text between a quote and the next quote (or the end), and each span ends before the next begins |
| ArgLexer.SpansAfterBreaks | src/arglexer.rs:30-37 | every token found from a cursor on starts at the cursor or right after a non-alphanumeric character (a skipped one, a swallowed word terminator, or a quote) |
| ArgLexer.WordsAreMaximal | src/arglexer.rs:3-10 | over a whole argument text, every word token is a maximal alphanumeric run: neither neighbour is alphanumeric |
| ArgLexer.TokensAreSlices | src/arglexer.rs:27-40 | the tokens from a cursor on are the slices of the text at the token spans, in order |
| ArgLexer.TokensAreOrderedSlices | src/arglexer.rs:3-41 | the tokens are non-overlapping slices of the argument text, left to right, each a word or a sentence |
| ArgLexer.SuffixOnly | src/arglexer.rs:23-24 | text before the cursor, such as the command word, never affects the tokens |
| ArgLexer.WordThen | src/arglexer.rs:4-7 | a word followed by any non-alphanumeric character, even a quote, is one token, and that character is swallowed |
| ArgLexer.WordAtEnd | src/arglexer.rs:6 | a word running to the end of the text is the last token |
| ArgLexer.SentenceThen | src/arglexer.rs:12-19 | a quoted sentence is the text strictly between the quotes, spaces included, and the closing quote is swallowed |
| ArgLexer.UnterminatedSentence | src/arglexer.rs:14-18 | an unterminated quote is not an error: its token is everything after it |
| ArgLexer.SkipThen | src/arglexer.rs:30-37 | a leading character that is neither alphanumeric nor a quote is dropped |
| ArgLexer.TokensFrom | src/arglexer.rs:27-40 | the reference lexer from a cursor; `WordAt`, `SentenceAt` and `SkipAt` give one step each, `TokensAreSlices` and `SuffixOnly` its shape |
| ArgLexer.Lex | src/arglexer.rs:27-40 | the tokens of an argument text; `LexArgs` is proved equal to it, and `TokensAreOrderedSlices`, `WordsAreMaximal` and the lemmas below characterise it |
| ArgLexer.SpaceSeparatedWords | src/arglexer.rs:3-10 | space-separated alphanumeric words lex to those words, in order |
| ArgLexer.ArgsAfterCommand | src/arglexer.rs:22-24 | lexing a message gives the tokens of its arguments alone |
| ArgLexer.LexEmpty | src/arglexer.rs:30 | empty arguments give no tokens |
| ArgLexer.WordThenSentence | src/arglexer.rs:65-72 | a word, a space and a quoted sentence give two tokens |
| ArgLexer.WordSentenceWord | src/arglexer.rs:56-63 | a word, a quoted sentence and a word, separated by spaces, give three tokens |
| ArgLexer.TwoSentences | src/arglexer.rs:74-81 | two quoted sentences separated by a space give two tokens |
| ArgLexer.SentenceThenWords | src/arglexer.rs:83-91 | a sentence closed early, followed by two words where the last swallows a stray quote, gives three tokens |
| ArgLexer.BasicLexing | src/arglexer.rs:47-54 | `!poll title arg1 arg2` gives `[title, arg1, arg2]` |
| ArgLexer.QuotationMarks | src/arglexer.rs:56-63 | `!poll title "arg1" arg2` gives `[title, arg1, arg2]` |
| ArgLexer.MultiWordQuotations | src/arglexer.rs:65-72 | `!poll title "arg1 arg2"` gives `[title, arg1 arg2]` |
| ArgLexer.MultipleSentences | src/arglexer.rs:74-81 | `!poll "longer title" "arg1 arg2"` gives `[longer title, arg1 arg2]` |
| ArgLexer.MismatchedQuotations | src/arglexer.rs:83-91 | `!poll "longer title "arg1 arg2"` lexes without failing, to `[longer title , arg1, arg2]` |
| ArgLexer.MismatchedQuotationsDiffer | src/arglexer.rs:83-91 | that result differs from the test's expected `[longer title, arg1 arg2]`, which is why the `should_panic` test panics |
| Agenda.Entry | src/agenda.rs:42-46 | the `format!` entry; `EntryRoundTrip` reads back the `*`-free author and the item text from it |
| Agenda.ShowText | src/agenda.rs:62-72 | the text `show` posts; `RenderedEntries` and `RenderAfterAdd` state when it apologises and how it grows |
| Agenda.ExportText | src/agenda.rs:76-82 | the exported document; `RenderedEntries` and `RenderAfterAdd` state its empty form and how it grows |
| Agenda.ExportFileName | src/agenda.rs:85 | the exported file name; `ExportFileNameHoldsDate` reads the date back from it |
| Agenda.ExportCaption | src/agenda.rs:94 | the caption sent with the exported file, the bold dated heading followed by a line break |
| Agenda.ShowOutcome | src/agenda.rs:51-74 | `show`: the error outside a guild, the error without a `meetings` channel, otherwise the posted text |
| Agenda.ExportOutcome | src/agenda.rs:75-99 | `export`: the attached document with its file name and caption |
| Agenda.Dispatch | src/agenda.rs:37-111 | the sub-command match; `AddAppendsOne`, `ClearIdempotent`, `OnlyAddAndClearChange` and `UnknownSubCommand` state what each arm does |
| Agenda.Agenda.constructor | src/agenda.rs:13 | the agenda starts empty |
| Agenda.Agenda.Add | src/agenda.rs:40-46 | the new list is the old one with the formatted entry pushed at the tail |
| Agenda.Agenda.Clear | src/agenda.rs:100-102 | the list becomes empty |
| Agenda.Agenda.Run | src/agenda.rs:35-114 | requires a space (otherwise `args[0]` panics); the outcome and the new list are those of the dispatch on the first argument |
| Agenda.AddAppendsOne | src/agenda.rs:40-49 | `add` acknowledges and appends exactly one entry at the tail, leaving every earlier entry in place |
| Agenda.AddsInOrder | src/agenda.rs:40-46 | two `add`s record their entries in the order they were made |
| Agenda.EntryRoundTrip | src/agenda.rs:42-46 | an entry reads back as the author with every `*` removed and the item words joined by spaces, unchanged |
| Agenda.AddKeepsText | src/agenda.rs:37-46 | the recorded item is the text typed after `add `, verbatim |
| Agenda.ClearIdempotent | src/agenda.rs:100-105 | `clear` empties the list, and clearing again gives the same outcome and list |
| Agenda.OnlyAddAndClearChange | src/agenda.rs:39-111 | `show`, `export` and unknown sub-commands leave the list unchanged |
| Agenda.UnknownSubCommand | src/agenda.rs:107-110 | the failure reaction comes exactly when the sub-command is none of add/show/export/clear, and then the list is unchanged |
| Agenda.RenderedEntries | src/agenda.rs:63-82 | `show` gives "No items recorded" exactly when the list is empty; `export` of an empty list is the dated heading alone |
| Agenda.RenderAfterAdd | src/agenda.rs:63-82 | after an `add`, the exported document and the shown text (once non-empty) are the previous ones followed by the new entry |
| Agenda.ExportFileNameHoldsDate | src/agenda.rs:85 | the file name is `agenda-` + date + `.md`, and the date can be read back from it |
| Poll.OptionLine | src/poll.rs:43 | one description line; `LineBreakFree` states it stays on one line |
| Poll.PollOf | src/poll.rs:27-59 | the poll a message yields; `PollArguments`, `PollBound`, `DescriptionLines` and `PollOfWords` state its error case, title, lines and reactions |
| Poll.OptionLines | src/poll.rs:40-45 | the zip has min(options, reactions) lines, and line i is reaction i, a space and option i in backticks |
| Poll.ReactionsAreKeycaps | src/poll.rs:8-18 | there are nine reactions, and reaction i is digit i+1 followed by U+FE0F U+20E3 |
| Poll.ReactionsOnOneLine | src/poll.rs:8-18 | no reaction holds a line break |
| Poll.LineBreakFree | src/poll.rs:43 | an option line holds a line break only if its reaction or option does |
| Poll.PollArguments | src/poll.rs:29-35 | the poll fails with "Invalid number of arguments to !poll" exactly when the message has no space; otherwise the title is the upper-cased first argument |
| Poll.PollBound | src/poll.rs:33-59 | with arguments present: the title is the first argument and the options are the rest; there are min(options, 9) description lines and reactions; the reactions are the first keycaps in order |
| Poll.DescriptionLines | src/poll.rs:40-45 | when no option holds a line break, the description splits back into exactly its option lines |
| Poll.PollOfWords | src/poll.rs:29-49 | `!poll <title> <options…>` with space-free words yields that title, those options in order, and min(options, 9) reactions |

## Left out

- Discord I/O (reactions, `send_message`, `send_files`, embeds) is not modelled. It appears only as the returned `Outcome` or `PollMessage` values. Errors from these calls are left out, and so is a failed reaction that stops the remaining poll reactions.
- The guild and `meetings` channel lookup in `show` is a parameter (`Meetings`). A failure of the HTTP call that lists the channels is not modelled.
- The mutex and lazy static around the agenda list are left out. The model has one owner and operations run in sequence; concurrency is outside its scope.
- `Local::now()` and its `%Y-%m-%d` formatting are replaced by a date string parameter. `export` reads the clock twice, and the model uses one date for both, so a run across midnight is not modelled.
- `fs::write` and `fs::remove_file` in `export` are file I/O and are left out. Only the document text, file name and caption are modelled.
- `to_uppercase` on the poll title is a function parameter `upper`.
- Logging (`log::info!`) is left out.
- ArgLexer.IsAlphanumeric: covers ASCII letters and digits only. Rust's Unicode `is_alphanumeric` is not modelled, and neither is byte slicing of non-ASCII text, which can split a character or panic.
- ArgLexer.LexArgs: a message without a space is a precondition, because the source panics on `unwrap` there.
- Agenda.Agenda.Run: a message without a space is a precondition, because the source panics on `args[0]` there.
- src/minutes.rs, src/resource.rs, src/help.rs, src/lib.rs and src/main.rs are not part of this model. They hold date parsing, message fetching and file sending, channel forwarding, a constant help text, command registration and client start-up.
