# jas lexer model

A Dafny model of the assembler lexer in `jas/jasvm.cpp`. The model covers
the token kinds, the token record, the lexer state, the byte-indexed kind
table, the `lex_token` state machine and the loop in `main` that collects
tokens. It also proves what a call and a whole run guarantee.

The source works on a NUL-terminated `std::string` through raw pointers.
The model works on an immutable `seq<char>`, where each character stands
for one byte. `At(buf, |buf|)` is the terminator `'\0'`, and offsets
replace the pointers:

- `Tokens` (tokens.dfy): `TokenType` with IDN, DIR, REG, IMM, PAL, PAR,
  COM, COL, NONE and the enumeration's size COUNT. `Token` holds a kind, a
  start offset, a size and a row. The module also has the byte classes,
  the kind table `TypesTable` with its `(u8)` lookup `KindOf`, newline
  counting, and the shapes of token the lexer can return (`IsSpan`,
  `IsPunctToken`, `IsSpanToken`, `WellFormed`).
- `Lexer` (lexer.dfy): `Cursor(pos, row, start: Option<nat>)` is the
  `Lexer` struct. `Step` is one iteration of the `for(;;)` loop. It
  mirrors both switches: a delimiter first finishes a pending span
  without moving, and then the byte is dispatched on. `Scan` is the loop,
  and `LexToken` is one call, whose local `type` starts as NONE. A call
  returns `Emit(token, next)`, `UnexpectedSigil(ch, row)` or
  `EndOfInput`.
- `Driver` (driver.dfy): `Collect` and `Tokenize` model the loop of
  `main`. It starts at row 0 with no pending span and calls the lexer
  while the cursor is not on a NUL byte. `CollectTokens` is the same loop
  written as a method. A `Run` holds the tokens in order and how the run
  stopped: `Terminator`, `PastEnd` or `Aborted(ch, row)`.
- `Examples` (examples.dfy): concrete runs.

End of input is where the model departs from a literal reading.
`lex_token` never tests for the terminator. When the cursor reaches it,
the `default:` arm opens or extends a span and steps past the end of the
buffer, which is undefined behaviour. The model returns `EndOfInput` at
exactly that point and drops any pending span. So the model never claims
that a span is finished by the end of the input. The driver's run then
stops with `PastEnd`. `CompleteRunEndsWithPunctuation` shows how common
this is: a run over a NUL-free buffer reaches the terminator cleanly only
when the buffer is empty or ends in `:`, `,`, `(` or `)`. So a file that
ends in a newline never stops cleanly on the terminator. It either aborts
on a misplaced sigil (`NewlineEndedFileAborts`) or reaches the undefined
read.

Behaviour kept as the code has it:

- Rows start at 0, not 1.
- There is no string-literal token. `"` is an ordinary identifier byte
  (`QuoteIsIdentifierByte`).
- No pending span is finished at end of input, so `mov` alone yields no
  token (`LoneIdentifierRunsPastEnd`).
- Input made only of whitespace and comments does not yield an empty,
  complete token list. It runs past the end
  (`BlankOrCommentInputRunsPastEnd`).
- A misplaced sigil aborts the process. The model turns that into the
  value `UnexpectedSigil(ch, row)`.
- Embedded NUL bytes behave as in the code. Inside `lex_token` they are
  identifier bytes. They stop the comment loop, and the driver stops at
  one.
- `type` is local to the call. A cursor that already has a pending span
  when the call starts gets a NONE token (`PendingOnEntryHasNoKind`). The
  driver never builds such a cursor.

## Model

| member | source | states |
|---|---|---|
| `Tokens.TypesTable` | jas/jasvm.cpp:75-82 | The table never yields NONE. It yields COUNT only for byte 0, one of PAL/PAR/COM/COL exactly for `(` `)` `,` `:`, and one of DIR/REG/IMM exactly for `.` `%` `$`. Every other byte gets the zero fill, IDN. |
| `Tokens.KindOf` | jas/jasvm.cpp:126-140 | The `(u8)` lookup the lexer does never yields NONE. A punctuation byte gets one of PAL/PAR/COM/COL, a sigil one of DIR/REG/IMM, and the NUL byte COUNT. |
| `Tokens.WellFormedText` | jas/jasvm.cpp:97-131 | A returned token never has kind NONE or COUNT. Its text is non-empty and inside the buffer, and holds no newline and no `#`. A span token's text holds no delimiter at all, and the text adds no row. |
| `Lexer.SkipComment` | jas/jasvm.cpp:113-116 | The comment loop stops at the first newline or NUL byte from its start, and consumes neither. Every byte it passes is neither a newline nor a NUL. |
| `Lexer.Step` | jas/jasvm.cpp:84-160 | Progress: an iteration that does not return advances the cursor by at least one byte, stays within the buffer and its terminator, and never moves a pending span's start. |
| `Lexer.Scan` | jas/jasvm.cpp:84-161 | The loop terminates with measure `|buf| - pos`. A returned token leaves no pending span and never moves the cursor backward, and a call that began with no pending span moves it forward. |
| `Lexer.LexToken` | jas/jasvm.cpp:70-162 | No span is pending after any call that returns a token (`lex->start` is NULL). The cursor never moves backward and stays valid. |
| `Lexer.CommentGap` | jas/jasvm.cpp:113-116 | The bytes from `#` to where the comment loop stops are all comment text. |
| `Lexer.StepKeepsInv` | jas/jasvm.cpp:84-160 | Every iteration that continues keeps the call's invariant. The row equals the starting row plus the newlines consumed. Bytes before the pending span are whitespace or comment text, and with no span pending the cursor is never in the middle of a comment. A pending span has no delimiter, a sigil only first, and the kind its first byte selects. |
| `Lexer.StepReturnOk` | jas/jasvm.cpp:97-139 | Each return point gives what `OutcomeOk` promises, and `OutcomeExact` shows that only the call's own result does. A token starts at the first byte that is neither whitespace nor comment text. A finished span is exactly `buf[start..current)` with size at least 1, and it stops at an unconsumed delimiter. A punctuation token is one byte. An abort carries the first sigil that interrupts the span opened there, with its row. |
| `Lexer.ScanOk` | jas/jasvm.cpp:84-161 | The invariant holds through the whole loop, so the returned outcome satisfies `OutcomeOk`, the exact description of the call. |
| `Lexer.LexTokenOk` | jas/jasvm.cpp:70-162 | Covers a call with no pending span. A token is well formed, and it starts at the first byte after the cursor that is neither whitespace nor comment text. The token's row is the start row plus the newlines before its first byte, and the next cursor sits just past the token with its row exact. For a span, that is on the delimiter, which stays unconsumed. An abort names the first sigil inside the span opened there. `EndOfInput` leaves only whitespace, comments and at most one unfinished span. |
| `Lexer.OutcomeExact` | jas/jasvm.cpp:70-162 | Covers a call with no pending span. `OutcomeOk` holds of an outcome if and only if it is the call's result, so the description of tokens, aborts and end of input determines the call. |
| `Lexer.PunctuationToken` | jas/jasvm.cpp:118-131 | With no span pending, `:` `,` `(` `)` are returned at once as one-byte tokens of kind COL/COM/PAL/PAR. Exactly one byte is consumed and the row is kept. |
| `Lexer.SigilOpensSpan` | jas/jasvm.cpp:133-142 | With no span pending, a returned token starts at the sigil. It is a span of kind DIR/REG/IMM, as the sigil's table entry gives, and its text includes the sigil. |
| `Lexer.SigilInsideSpanAborts` | jas/jasvm.cpp:136-139 | A call that opens a span and then meets a sigil inside it aborts with `UnexpectedSigil` carrying that sigil and the row, and returns no token. |
| `Lexer.SpanToken` | jas/jasvm.cpp:87-159 | A span the call opens is returned at the first delimiter after it. Its kind is the one its first byte selects, it keeps the row the call started on, and the delimiter is left unconsumed for the next call. |
| `Lexer.UnfinishedSpan` | jas/jasvm.cpp:153-159 | A span the call opens that runs to the end of the buffer is never finished: the call reaches the read past the end, and no token is returned. |
| `Lexer.BlankSkipped` | jas/jasvm.cpp:146-151 | With no span pending, a call at a space, tab or carriage return returns the same as a call one byte on, on the same row. |
| `Lexer.CommentSkipsToLineEnd` | jas/jasvm.cpp:113-116 | With no span pending, a call at `#` returns the same as a call at the next newline or NUL on the same row: the comment emits nothing, keeps the row, and moves the cursor forward. |
| `Lexer.NewlineAddsRow` | jas/jasvm.cpp:144-150 | With no span pending, a call at a newline returns the same as a call one byte on and exactly one row down. |
| `Lexer.PendingOnEntryHasNoKind` | jas/jasvm.cpp:72-108 | A span pending when the call starts is returned at the next delimiter with kind NONE, because `type` is a local of the call. |
| `Lexer.FreshCallHasKind` | jas/jasvm.cpp:74-157 | A call with no span pending never returns kind NONE or COUNT. A returned span has kind IDN exactly when its first byte is not a sigil. |
| `Driver.Initial` | jas/jasvm.cpp:177-182 | The lexer as `main` sets it up (row 0, at the first byte, no pending span) meets the loop's invariant for every buffer. |
| `Driver.Collect` | jas/jasvm.cpp:184-188 | The loop only appends to the tokens collected so far. It appends at most one token per remaining byte. |
| `Driver.Tokenize` | jas/jasvm.cpp:175-188 | Covers a run from row 0. Every token is well formed, and only whitespace and comment text separate it from its predecessor. Its row is the number of newlines before its first byte. The run stops on a NUL, on the first sigil inside a span, or past the end when only whitespace, comment text and at most one unfinished span remain. |
| `Driver.CollectTokens` | jas/jasvm.cpp:175-188 | The loop of `main` computes the same run as `Tokenize`, and that run satisfies `RunOk`. |
| `Driver.EmitKeepsInv` | jas/jasvm.cpp:184-187 | Appending the token a call returns keeps the loop invariant: the new cursor sits at the token's end with the row counted from the start of the buffer, and every collected token still satisfies `TokenOk`. |
| `Driver.CollectEmit` | jas/jasvm.cpp:184-187 | Past the `*lex.current` test, an iteration whose call returns a token continues from the call's next cursor with that token appended. |
| `Driver.CollectOk` | jas/jasvm.cpp:184-188 | The loop keeps its invariant: the cursor sits at the end of the last token with an exact row. So every run satisfies `RunOk`, and its stop is explained by the bytes after the last token. |
| `Driver.TokenIsNextCall` | jas/jasvm.cpp:184-186 | A token that `RunOk` admits at position `k` is exactly what the lexer returns when called at the end of token `k - 1` with the row counted so far. |
| `Driver.TokenIsNextIteration` | jas/jasvm.cpp:184-187 | A token that `RunOk` admits at position `k` is what one more iteration of the loop appends, started where token `k - 1` ends. |
| `Driver.TokensFollowDriver` | jas/jasvm.cpp:184-188 | Tokens satisfying `TokenOk`, followed by the loop's own stop, are what the loop collects from the start of the buffer. |
| `Driver.RunExact` | jas/jasvm.cpp:175-188 | `RunOk` holds of a run if and only if it is the run of `main`'s loop, so the description of tokens and stop determines the run. |
| `Driver.TokensInOrder` | jas/jasvm.cpp:184-188 | Tokens of a run follow buffer order without overlapping, and their rows never decrease. |
| `Driver.CompleteRunEndsWithPunctuation` | jas/jasvm.cpp:153-159 | Covers a NUL-free buffer. A run that reaches the terminator without the undefined read had an empty buffer or ended on a punctuation token at the last byte. |
| `Driver.BlankOrCommentInputRunsPastEnd` | jas/jasvm.cpp:113-159 | Non-empty input made only of whitespace and comment text yields no token and reaches the read past the end. |
| `Examples.MnemonicWithOperands` | jas/jasvm.cpp:70-188 | `mov, (rax)` yields IDN `mov`, COM, PAL, IDN `rax`, PAR on row 0, and the run completes. |
| `Examples.SigilInsideIdentifier` | jas/jasvm.cpp:136-139 | `ab.c` aborts with `.` on row 0 before any token. |
| `Examples.TrailingSpanRunsPastEnd` | jas/jasvm.cpp:153-159 | `a\nb` yields only `a`, on row 0. The unfinished `b` is dropped when the run reaches the terminator. |
| `Examples.LoneIdentifierRunsPastEnd` | jas/jasvm.cpp:153-159 | `mov` alone yields no token and runs past the end. |
| `Examples.NewlineEndedFileAborts` | jas/jasvm.cpp:136-139 | `a.b` followed by a newline aborts with `.` on row 0, so a file ending in a newline need not run past the end. |
| `Examples.TrailingCommentRunsPastEnd` | jas/jasvm.cpp:113-159 | `a #c` followed by a newline yields `a` and then runs past the end, although no span is left unfinished. |
| `Examples.CommentFinishesSpan` | jas/jasvm.cpp:87-116 | In `%r1#x\n,` the `#` finishes the REG span `%r1`, the comment is skipped, and the comma is on row 1. |
| `Examples.QuoteIsIdentifierByte` | jas/jasvm.cpp:153-159 | `"hi":` yields the IDN span `"hi"` with its quotes, then COL. |

## Left out

- `read_entire_file` (jas/jasvm.cpp:8-19) is left out because it is file I/O. The buffer is a parameter.
- `print_token`, the `TOKEN_TYPE_NAMES` strings and every `printf` are left out because they only format output.
- The argument handling and exit codes of `main` (jas/jasvm.cpp:164-173) are left out because they are command-line plumbing.
- `file_path` is left out. The lexer copies it unchanged into every token as a diagnostic label.
- The `fprintf(stderr, …)` and `abort()` side effects are left out. Only the error value `UnexpectedSigil(ch, row)` stays.
- The undefined behaviour past the end of the buffer is left out. The model stops with `EndOfInput` / `PastEnd` where the source would first read out of bounds, and it does not say what the source does after that.
- `size_t` widths are left out. Rows and offsets are unbounded naturals. A row never exceeds the buffer length, so no wrap-around can occur.
- elf/elf.cpp and main.c are not part of this model. The first is a packed-struct overlay plus file I/O. The second is an unfinished draft that does not compile.
- String literals, escapes and end-of-input finishing of a span are left out because the code has none of them.
