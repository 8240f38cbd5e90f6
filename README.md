# coach: a flashcard trainer, modelled in Dafny

`coach` is a small command-line flashcard trainer written in Rust. A
dictionary file holds one card per line, `query, answer1, answer2, ...`.
In `train` mode the cards are shuffled and asked one by one. A reply that
matches any answer, ignoring ASCII case, completes the card. Any other reply
fails it. Once every card has been asked, the user may repeat the failed
cards. In `create` mode the user types cards line by line until a bare
newline, and the cards are written to the file.

The model has five modules:

- `Wrappers` (`wrappers.dfy`): the `Option` type that Rust's `Option` stands for.
- `Text` (`text.dfy`): the string operations the program relies on.
  - `str::trim` uses Rust's `char::is_whitespace`, which is the Unicode
    `White_Space` list, written out character by character.
  - `str::split` on a character, and `join`.
  - `str::len` as the UTF-8 byte length.
  - `BufRead::lines`, and the newline `writeln!` puts after each line.
- `Cards` (`cards.dfy`):
  - the `Card` record and its `Display` form (`Render`);
  - `parse_new_card` (`ParseNewCard`);
  - `is_answer_for_card` (`IsAnswerForCard`), with `eq_ignore_ascii_case`.
  - `make_card` is the `Card` constructor itself.
- `Session` (`session.dfy`): the training session.
  - `Training` is a class whose three sequences, `remaining`, `failed` and
    `completed`, the methods update in place.
  - `make_training` is its constructor. The shuffle is a Fisher–Yates loop
    fed by the random draws.
  - `answer_card` is `Training.AnswerCard`. The repeat step of `train` is
    `Training.Repeat` and `Training.Review`.
  - `train` (`Train`) runs on a finite script of input lines. The
    functions `Pass` (one pass of the inner loop) and `RoundsOutcome` (the
    outer loop) say where such a run ends. `AskAll`, `Rounds` and `Train`
    are proved to end exactly there.
- `Dictionary` (`dictionary.dfy`): the two loops that build card lists from lines.
  - `read_dictionary` (`ReadDictionary`) walks the lines of an opened file.
    It keeps the cards and reports malformed lines by their 1-based number.
  - `create` (`Create`) reads typed lines while the raw line is longer than
    one byte.

The main results are:

- a line parses exactly when it contains a comma, with one answer per comma;
- rendering and then parsing a well-formed card gives back that card;
- the file `write_dictionary` writes for cards with well-formed fields reads
  back one line per card, unchanged and without any reported line, exactly
  when no field holds a newline (a newline in a field splits the card over
  two lines);
- the inner loop of `train` answers the cards top first, one trimmed input
  line each, and each card moves to `completed` or `failed` by whether its
  line answers it;
- a whole run of `train` on a script of lines ends where `TrainOutcome`
  says: after each pass with failed cards the next line is the reply to the
  repeat prompt, a reply that asks for the repeat starts a pass over those
  cards, and the run is out of input only where it needs a line the script
  does not have;
- answering and repeating only move cards between the three sequences, so
  the multiset of the session's cards never changes;
- the shuffle is a permutation;
- the buffer of the repeat prompt is not cleared before it is read (see
  "## Findings").

Two behaviours of the code are easy to miss:

- A line with nothing after its only comma, such as `cat,`, is accepted
  with one empty answer (`ParseTrailingComma`). It is not rejected.
- `create` stops on any line of at most one byte, and only on such a line.
  A whitespace-only line of two or more bytes keeps it asking. A lone comma
  at the end of input stops it and still adds the card `("", [""])`
  (`AuthoredShortLine`).

## Model

| member | source | states |
|---|---|---|
| Text.IsWhitespace | src/main.rs:60 | the characters `trim` removes: Rust's `char::is_whitespace`, the Unicode `White_Space` list |
| Text.Trim | src/main.rs:60-62 | `trim` gives a slice of its input with no white space at either end |
| Text.TrimDropsWhitespace | src/main.rs:60-62 | everything `trim` cuts off, before and after the slice, is white space |
| Text.TrimIdentity | src/main.rs:60-62 | a string is its own trim exactly when it has no white space at its ends |
| Text.TrimIdempotent | src/main.rs:60-62 | trimming twice is trimming once |
| Text.TrimKeepsAbsent | src/main.rs:58-62 | trimming never introduces a character, so a field with no comma keeps none |
| Text.TrimLeadingSpace | src/main.rs:16 | the space `Display` puts before each answer is removed by `trim` |
| Text.TrimEndsWithNewline | src/main.rs:95-96 | the newline `read_line` keeps after a trimmed line is removed by `trim` |
| Text.TrimWhitespaceChar | src/main.rs:107 | a line holding only one white-space character trims to the empty string |
| Text.Utf8Length | src/main.rs:134 | `len` counts UTF-8 bytes: at least one and at most four per character |
| Text.Utf8LengthAtMostOne | src/main.rs:134 | a string of at most one byte is empty or one ASCII character |
| Text.FirstIndex | src/main.rs:58-59 | the position of the first comma: it is a comma and none comes before it |
| Text.Split | src/main.rs:58 | `split` gives at least one field and no field holds the separator |
| Text.SplitCount | src/main.rs:58 | `split` gives one more field than there are separators |
| Text.SplitFirst | src/main.rs:58-60 | the first field is the text before the first separator and the other fields split the text after it |
| Text.Join | src/main.rs:16 | `join` puts the separator between each neighbouring pair of parts and nothing around them |
| Text.JoinSplit | src/main.rs:58 | joining the fields of a split with the separator gives back the string |
| Text.SplitJoin | src/main.rs:16 | splitting a `join` of separator-free fields on the separator (line 58) gives back the fields |
| Text.Lines | src/main.rs:74 | `lines` gives the pieces that newlines end, without the newline and one carriage return before it, and a last unended piece; no line holds a newline |
| Text.Terminated | src/main.rs:122-126 | the text of lines written one `writeln!` each: empty exactly when there are no lines, and otherwise ending in a newline |
| Text.LinesTerminated | src/main.rs:122-126 | reading back the lines written one per `writeln!` gives the same lines, when none holds a newline or ends in a carriage return |
| Cards.Render | src/main.rs:14-17 | the `Display` line: the query, a comma and a space, then the answers joined by a comma and a space |
| Cards.ParseNewCard | src/main.rs:57-66 | a line parses to a card exactly when it holds a comma |
| Cards.ParseNewCardFields | src/main.rs:57-66 | the query is the trimmed text before the first comma; the answers are the trimmed fields after it, one per comma |
| Cards.ParseTrailingComma | src/main.rs:57-66 | a comma-free query followed by one comma parses to the trimmed query with a single empty answer |
| Cards.ParseExample | src/main.rs:57-66 | `cat, gato, felino` is the render of its card and parses back to it |
| Cards.ParseNoCommaExample | src/main.rs:57-66 | a line with no comma is rejected |
| Cards.RenderAsFields | src/main.rs:16 | the `Display` line is the query and the space-prefixed answers, joined by commas |
| Cards.RenderParseRoundTrip | src/main.rs:57-66 | rendering a card with its `Display` form (line 16) and parsing the line gives back the card, when the card's fields hold no comma and no outer white space and it has at least one answer |
| Cards.ParseRenderParse | src/main.rs:57-66 | every parsed card is well formed, so rendering and re-parsing it gives the same card |
| Cards.RenderOneLine | src/main.rs:16 | the `Display` line of a well-formed card with no newline in a field holds no newline and does not end in a carriage return |
| Cards.ParseOneLine | src/main.rs:57-66 | a card parsed from a line without a newline has no newline in any field |
| Cards.AsciiLower | src/main.rs:27 | ASCII lower-casing maps `A`..`Z` to `a`..`z` and leaves every other character alone |
| Cards.EqIgnoreAsciiCase | src/main.rs:27 | `eq_ignore_ascii_case`: equal lengths and equal characters after ASCII lower-casing |
| Cards.EqIgnoreAsciiCaseIsLowerEq | src/main.rs:27 | `eq_ignore_ascii_case` holds exactly when the ASCII lower-case forms are equal |
| Cards.NonAsciiComparedExactly | src/main.rs:27 | a non-ASCII character ignores case only against itself |
| Cards.FindAnswer | src/main.rs:27 | `find` gives the first answer equal to the reply ignoring ASCII case, or none when no answer is |
| Cards.IsAnswerForCard | src/main.rs:26-28 | a reply answers a card exactly when some answer equals it ignoring ASCII case |
| Cards.ExactAnswerAccepted | src/main.rs:26-28 | every answer of a card, typed as is, answers it |
| Cards.MatchExamples | src/main.rs:26-28 | `PARIS` answers a card with answer `Paris`; its prefix `Pari` does not |
| Session.Shuffle | src/main.rs:42 | the shuffle is a permutation of the cards |
| Session.Training.constructor | src/main.rs:41-48 | a new session holds the shuffled cards as `remaining`, with nothing failed or completed |
| Session.Training.AnswerCard | src/main.rs:30-39 | the last remaining card is popped and pushed onto `completed` if the reply answers it and onto `failed` otherwise; nothing else changes |
| Session.Training.Repeat | src/main.rs:108-109 | the failed cards, in their order, become the remaining ones, and `failed` is emptied |
| Session.Training.Review | src/main.rs:104-114 | the repeat happens exactly when cards failed and the reply is `yes` or empty after trimming; otherwise nothing changes |
| Session.WantsRepeat | src/main.rs:107 | the repeat test applied to the reply alone: it trims to `yes` or to nothing |
| Session.RepeatAsWritten | src/main.rs:92-107 | the repeat test as the program applies it: to the last answer's line and the reply together, as the buffer holds them |
| Session.WantsRepeatAccepts | src/main.rs:107 | the replies `yes` and an empty line ask for the repeat |
| Session.WantsRepeatRefuses | src/main.rs:107 | `no` and `Yes` do not: the test is case sensitive |
| Session.WantsRepeatRefusesLong | src/main.rs:107 | no reply longer than `yes` without outer white space asks for the repeat |
| Session.RepeatAsWrittenRefusesYes | src/main.rs:92-107 | as written, after a non-empty answer, the reply `yes` does not repeat |
| Session.RepeatAsWrittenRefusesEmpty | src/main.rs:92-107 | as written, after a non-empty answer other than `yes`, an empty reply does not repeat |
| Session.GradedPartition | src/main.rs:30-39 | every asked card ends up either among the passed or among the failed ones, and no card is lost or added |
| Session.GradedAllAnswered | src/main.rs:30-39 | when every reply answers its card, all the cards pass, in their order, and none fails |
| Session.AskedStep | src/main.rs:91-102 | answering the top card with one more reply extends the answered cards by it, moved by whether the reply answers it |
| Session.AskLine | src/main.rs:92-97 | one prompt: the next input line, trimmed, answers the top card, one card leaves `remaining`, and the session's cards are kept |
| Session.AskAll | src/main.rs:91-102 | the inner loop takes one input line per card, from the top of `remaining`, until none remains or the input runs out; the k-th card taken moves to `completed` if the k-th line, trimmed, answers it and to `failed` otherwise; completed cards stay, and the session's cards are kept |
| Session.AskedAllCompleted | src/main.rs:91-102 | after a pass that asked every card, `completed` holds exactly the cards whose line answered them, in the order asked |
| Session.Pass | src/main.rs:91-102 | one pass of the inner loop from a given line: it takes one line per card, stops when no card or no line is left, is out of input exactly when cards remain, and never takes a card out of `completed` |
| Session.FirstPass | src/main.rs:91-102 | with fewer lines than cards the first pass answers every line and leaves cards; otherwise it asks every card, and `completed` holds the cards whose line answered them |
| Session.RoundsOutcome | src/main.rs:90-115 | the outer loop once a pass has ended: out of input if the pass was, finished with no failed card, else the next line is the reply, and a reply asking for the repeat starts a pass over the failed cards; it never takes a card out of `completed` |
| Session.RoundsOutcomeEnds | src/main.rs:90-115 | the outer loop is out of input only at the end of the script, and finishes only with no card remaining |
| Session.RoundsOutcomeRefused | src/main.rs:104-114 | a run that finishes with failed cards ends on a line that refuses the repeat |
| Session.RepeatPrompt | src/main.rs:104-111 | the next line is the reply; a refusal uses just that line and changes nothing, and a repeat runs exactly one pass (`Pass`) over the old failed cards from the next line, after which the run goes on as `RoundsOutcome` says |
| Session.Rounds | src/main.rs:90-115 | the outer loop ends in exactly the state, ending and script position `RoundsOutcome` gives for its starting state; completed cards stay completed, nothing changes while a pass is unfinished, and a run that finishes with failed cards ends on a refusing reply |
| Session.TrainOutcome | src/main.rs:86-116 | a whole scripted run: the first pass over the shuffled deck from line 0, then the outer loop |
| Session.Train | src/main.rs:86-116 | the session's cards stay those loaded; the first pass takes one line per card, so with enough lines every card is asked, it grades the shuffled deck top first, and the cards it passes stay completed; a run that finishes ends with nothing remaining, and with failed cards only after a reply that refuses the repeat; running out of input stops it at the end of the script; the final state, ending and script position are exactly `TrainOutcome` of the shuffled deck and the script |
| Session.RetryRun | src/main.rs:86-116 | one card, a wrong line, a reply asking for the repeat and a right line: the run uses the three lines and ends with the card completed and none failed |
| Session.DeclineRun | src/main.rs:86-116 | one card, a wrong line and a refusing reply: the run finishes after two lines with the card failed |
| Session.StuckRun | src/main.rs:86-116 | one card and only a wrong line: the run is out of input at the repeat prompt, with the card failed |
| Session.RetryScenario | src/main.rs:104-111 | a card failed, repeated with `yes` and then answered ends completed |
| Session.DeclineScenario | src/main.rs:104-114 | a card failed and then declined with `no` stays failed |
| Dictionary.ReadDictionary | src/main.rs:72-81 | the loop keeps the cards of the well-formed lines in order and reports the numbers of the others |
| Dictionary.ReadCounts | src/main.rs:74-80 | every line either gives a card or is reported |
| Dictionary.RejectedLinesExact | src/main.rs:74-80 | number `k` is reported exactly when line `k`, counted from 1, exists and fails to parse |
| Dictionary.RejectedBound | src/main.rs:74-80 | every reported number is between 1 and the number of lines |
| Dictionary.RejectedIncreasing | src/main.rs:74-80 | the numbers are reported in increasing order |
| Dictionary.KeptAppend | src/main.rs:74-80 | the cards kept from two runs of lines are the cards of the first, then those of the second |
| Dictionary.ParsedCardsAppend | src/main.rs:74-80 | reading two blocks of lines one after the other gives the cards of the first, then those of the second |
| Dictionary.Rendered | src/main.rs:122-126 | the lines `write_dictionary` writes: one `Display` line per card, in order |
| Dictionary.FileText | src/main.rs:118-129 | the text `write_dictionary` writes, each card's `Display` line followed by a newline: empty exactly when there are no cards, and otherwise ending in a newline |
| Dictionary.DictionaryRoundTrip | src/main.rs:118-129 | the file written for well-formed cards with no newline in a field reads back (`lines`, line 74) one line per card, gives the same cards and reports no line |
| Dictionary.ReadCardsOnOneLine | src/main.rs:74-77 | no card read from a file has a newline in a field |
| Dictionary.FileRoundTrip | src/main.rs:118-129 | cards with well-formed fields read back unchanged from the file written for them exactly when none of their fields holds a newline |
| Dictionary.KeepsAsking | src/main.rs:134 | the guard of `create`: the raw line read last, newline included, is longer than one UTF-8 byte |
| Dictionary.LinesRead | src/main.rs:133-138 | `create` reads every line up to and including the first of at most one byte, or up to the end of input |
| Dictionary.Create | src/main.rs:131-147 | `create` returns the cards that its trimmed lines parse to, in order |
| Dictionary.LinesReadStops | src/main.rs:134-138 | reading stops at the first line of at most one byte |
| Dictionary.LinesReadAll | src/main.rs:134-138 | with no such line, every line is read and then the empty line of the end of input |
| Dictionary.AuthoredAsDictionary | src/main.rs:131-147 | when no line stops it, `create` collects what reading the trimmed lines as a dictionary gives |
| Dictionary.AuthoredShortLine | src/main.rs:134-142 | a first line of at most one byte ends authoring; it adds a card only if it is a lone comma |
| Dictionary.ShortLineParse | src/main.rs:139-141 | a line of at most one byte parses only if it is a lone comma, to the card with an empty query and one empty answer |

## Left out

- Opening, reading and writing files, and all terminal output, are left
  out. The "Dictionary malformed on line" messages are the list of
  reported numbers returned by `ReadDictionary`.
- `read_dictionary` is given the lines of a file that opened. The model
  does not cover a failed open or a failed read (`line.unwrap()` panics),
  nor the `expect` calls in `main`, nor the `expect` panics on terminal
  reads and flushes in `train` and `create` (for example on input that is
  not valid UTF-8).
- The usage hint that `create` prints after a malformed line is output
  only. The model does not track it.
- `write_dictionary`'s error path is not modelled. The text it writes is
  `FileText`: one `Display` form per card, each followed by a newline.
- `main`'s argument handling and mode dispatch are not modelled.
- The random source is not modelled. `thread_rng().shuffle` is the
  Fisher–Yates loop in `Shuffle`, fed by draws passed in as an argument.
- Session.Train: stops with `OutOfInput` where the program would read past
  the end of the input; the model does not follow it further. There
  `read_line` reads nothing. A card asked at the end of input gets an empty
  answer: a card with an empty answer (from a line such as `cat,`) is
  completed by it, any other card fails. The repeat prompt that follows
  tests the buffer, which that empty answer left empty, so the failed cards
  are repeated and meet empty answers again: once a card without an empty
  answer is asked at the end of input, the program loops forever. If the
  input instead ends right at the repeat prompt, the buffer still holds the
  last answer's line (for example `Paris`), and the session ends unless
  that line trims to `yes` or to nothing.
- Session.Train: decides the repeat on the reply line alone
  (`WantsRepeat`), as `RoundsOutcome` does. The program tests the reply
  together with the stale last answer left in the buffer. That behaviour is modelled separately as
  `RepeatAsWritten` (see "## Findings").
- Session.Shuffle: states that the result is a permutation, not that each
  order is equally likely.
- Strings are sequences of Unicode scalar values. `eq_ignore_ascii_case`
  compares bytes, but ASCII case folding never changes a multi-byte
  sequence, so comparing characters is equivalent (`NonAsciiComparedExactly`).

## Findings

| source | as written | input that shows it | evidently intended | confidence | as-written member | corrected member |
|---|---|---|---|---|---|---|
| src/main.rs:92-107 | the repeat prompt's `read_line` appends to `input`, which still holds the last answer's line, so the test is applied to the answer and the reply together | last answer `Paris`, then reply `yes`: the trimmed buffer is "Paris\nyes", not `yes`, so the failed cards are not repeated. An empty reply after `Paris` is refused the same way. | the reply alone decides, so `yes` or an empty reply repeats the failed cards | not executed | Session.RepeatAsWrittenRefusesYes | Session.WantsRepeatAccepts |
