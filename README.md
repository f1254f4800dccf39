# Command-line tokenizer and command parser of the shell

This project models the part of the shell that turns one line of input into a
`Command` record (`utils.c`, `utils.h`):

- `next_non_empty_token` is the tokenizer. It advances a cursor `char** line`
  through a heap buffer by calling `strsep` over the delimiters space, tab,
  newline and carriage return. Each delimiter it consumes is overwritten with
  NUL. Empty fragments are skipped, and NULL is returned once the buffer is
  exhausted.
- `parse_command` builds a `Command` in five steps:
  - it copies at most `MAX_COMMAND_BYTES` (1024) bytes of the input;
  - it allocates a zero-filled array of 1024 argument slots;
  - it stores every token of the copy in the next slot;
  - it takes `args[0]` as `program_name`;
  - it turns a trailing `&` token into `in_background` and clears that slot.

The model has two modules.

`Tokenizer` (`tokenizer.dfy`) holds the tokenizer:

- `Separate` and `NextNonEmpty` give the meaning of one `strsep` step and of
  one `next_non_empty_token` call. They act on the abstract cursor: NULL
  (`None`), or the unread rest of the buffer (`Some(rest)`).
- `Tokens` is an independent reference definition: the maximal runs of
  non-delimiter characters.
- `TokenCursor` is the cursor itself, a class over a character array. Its
  methods write NUL over delimiters just as `strsep` does, and they are proved
  against `Separate` and `NextNonEmpty`.

`CommandParser` (`command.dfy`) holds the parser:

- The class `Command` mirrors the C struct. Its argument array has 1024 slots,
  and a NULL pointer is `None`.
- `Parse` gives, on values, the command that `parse_command` builds.
- The method `ParseCommand` carries out the C procedure on a fresh `Command`
  and a fresh cursor over the truncated copy. It is proved to produce exactly
  `Parse`'s value.

The lemmas tie `Parse` back to the reference tokens, the background marker
and the 1024-byte limit.

`program_name` is taken from `args[0]` (utils.c:38) before the `&` slot is
cleared (utils.c:43). So a line whose only token is `&` yields
`program_name` `"&"`, an empty argument vector and `in_background` set
(`ProgramNameIsFirstToken`, `LoneMarker`).

## Model

The value-level specification of `parse_command`'s lines 35-44 is four functions:
- `Drain`: the tokens that repeated `next_non_empty_token` calls return;
- `Argv`: the NULL-terminated vector read off the argument slots;
- `Assemble`: the record built from a token list;
- `Parse`: `Assemble` of the tokens of the truncated copy.

The lemmas below state what these functions mean, and the methods are proved to produce exactly their values.

| member | source | states |
|---|---|---|
| Tokenizer.FirstDelimiter | utils.c:15 | the fragment `strsep` cuts off: the prefix before the returned index holds no delimiter, and the index is a delimiter or the end of the string |
| Tokenizer.Separate | utils.c:15 | one `strsep` step: a NULL cursor gives NULL and stays NULL. Otherwise the fragment holds no delimiter. If the cursor becomes NULL, the fragment is the whole rest; otherwise it is a prefix followed by one delimiter, and the new cursor is everything after that delimiter |
| Tokenizer.NextNonEmpty | utils.c:12-18 | a returned token is non-empty and holds no delimiter. A NULL result leaves the cursor NULL, and a NULL cursor gives NULL. Every call on a non-NULL cursor shrinks it |
| Tokenizer.TokenLocation | utils.c:12-18 | where a returned token lies in the cursor's text `s`: everything before it is a delimiter skipped as an empty fragment; it ends where the new cursor begins, less the one delimiter `strsep` consumed; a non-NULL new cursor is exactly the text after that delimiter |
| Tokenizer.CursorAfterToken | utils.c:12-18 | the same in buffer offsets, for a cursor at offset `p0`: the token starts at some `start >= p0`, only delimiters lie in `[p0, start)`, and a non-NULL new cursor sits at `start + |token| + 1`, just past the delimiter that ends the token |
| Tokenizer.TokensAreWords | utils.c:15 | every reference token is non-empty and free of delimiters |
| Tokenizer.TokensOfWord | utils.c:15 | a non-empty word without delimiters is exactly one token |
| Tokenizer.TokensSplit | utils.c:15 | a delimiter splits a line into two independent halves: the tokens of `a d b` are the tokens of `a` followed by those of `b` |
| Tokenizer.DelimitersCollapse | utils.c:15 | two consecutive delimiters give the same tokens as one, so runs of delimiters produce no empty tokens |
| Tokenizer.DrainIsTokens | utils.c:12-18 | repeated calls of `next_non_empty_token` on a buffer holding `s` return exactly the maximal non-delimiter runs of `s`, in order, then NULL |
| Tokenizer.NullIsFinal | utils.c:12-18 | once a call has returned NULL, every later call returns NULL |
| Tokenizer.TokenCountBound | utils.c:35-36 | a line of n characters has at most (n + 1) / 2 tokens |
| Tokenizer.TokensKeepContents | utils.c:15 | only delimiters are dropped: the tokens, concatenated, are the non-delimiter characters of the line in their original order |
| Tokenizer.TokenStays | utils.c:15 | a round of `strsep` writes never changes a returned token's bytes: the writes put NUL only over delimiters, and a token holds none |
| Tokenizer.TokenCursor.constructor | utils.c:21 | a fresh buffer holding exactly the copied text, a non-NULL cursor at offset 0, and that text as the cursor's contents |
| Tokenizer.TokenCursor.FindDelimiter | utils.c:15 | the scan inside `strsep` stops at the first delimiter at or after the cursor, or at the end of the buffer |
| Tokenizer.TokenCursor.CutAt | utils.c:15 | the write of `strsep`: NUL over the delimiter found at `i`, the cursor moved to `i + 1`, and no other byte changed |
| Tokenizer.TokenCursor.Strsep | utils.c:15 | the in-place `strsep` returns the fragment and leaves the cursor that `Separate` gives. The fragment is the text at the old cursor. When the cursor becomes NULL, or was NULL, the buffer is unchanged. Otherwise it writes exactly one NUL, at the delimiter just after the fragment, and the cursor moves past it. Bytes before the old cursor never change, and every changed byte was a delimiter |
| Tokenizer.TokenCursor.NextNonEmptyToken | utils.c:12-18 | the in-place loop returns the token and leaves the cursor that `NextNonEmpty` gives. The ghost `start` places the token: only delimiters lie between the old cursor and `start`, and the token lies both in the text and in the buffer at `start`. A non-NULL new cursor sits one delimiter past the token's end. Every byte the call changes was a delimiter and is now NUL, and bytes before the old cursor never change |
| CommandParser.Truncate | utils.c:21 | the copy is a prefix of the input of length min(n, 1024) |
| CommandParser.SlotsOfTokens | utils.c:38-44 | with the tokens in the slots: slot 0 is the first token or NULL; the test on slot i - 1 is exactly "the last token is `&`"; clearing that slot leaves precisely the other tokens and changes no other slot |
| CommandParser.ArgsStayInBounds | utils.c:35-36 | a copy of at most 1024 bytes has at most 512 tokens, so `args[i++]` never leaves the 1024-slot array, and every slot from the token count on stays NULL |
| CommandParser.CursorTokenBound | utils.c:35-36 | the cursor over the copy returns at most 512 tokens before NULL |
| CommandParser.ArgvIsTokensWithoutMarker | utils.c:35-44 | the NULL-terminated argument vector is the token list of the first 1024 bytes, minus a trailing `&` |
| CommandParser.BackgroundIffTrailingMarker | utils.c:39-44 | `in_background` holds iff there is a token and the last token is `&`. When it holds, the vector has one entry fewer than the token list; otherwise it equals the token list |
| CommandParser.InnerMarkerIsArgument | utils.c:41-44 | a `&` that is not the last token stays an ordinary argument in its slot |
| CommandParser.ProgramNameIsFirstToken | utils.c:38-43 | `program_name` is NULL iff there are no tokens, and otherwise it is the first token, even when that token is a trailing `&`. It equals `argv[0]` whenever the vector is non-empty. It is set while the vector is empty exactly when the only token is `&` |
| CommandParser.LoneMarker | utils.c:38-44 | the line `&` gives `program_name` `"&"`, 1024 NULL slots and `in_background` set |
| CommandParser.BackgroundCommandLine | utils.c:35-44 | a line `prog arg &` (such as `sleep 5 &`) gives `program_name` `prog`, vector `[prog, arg]` and `in_background` set |
| CommandParser.IgnoresBytesBeyondLimit | utils.c:21 | two inputs that agree on their first 1024 bytes parse to the same command |
| CommandParser.Command.constructor | utils.c:26-33 | a fresh record with 1024 NULL argument slots, no program name and the flag clear |
| CommandParser.StoreTokens | utils.c:35-37 | the loop puts the tokens of the copy into slots 0 to count - 1, in order, and leaves the cursor NULL. The ghost `starts` give each token's offset in the copy, and after the loop every stored token still lies in the copy, byte for byte, at its offset |
| CommandParser.SetNameAndBackground | utils.c:38-44 | applied to slots holding the tokens, the record ends up as `Parse` describes: the program name, the slots without a trailing `&`, and the flag |
| CommandParser.ParseCommand | utils.c:20-47 | the in-place procedure returns a fresh record whose contents are exactly `Parse` of the input |

## Left out

- Allocation failure (utils.c:26-33) is not modelled. `malloc`, `calloc` and `strndup` always succeed here, so the NULL returns of `parse_command` do not occur.
- Memory ownership is not modelled: the copy is never freed, and the record and argument array are never released.
- The argument slots hold string values, not pointers into the copied buffer. Each pointer is kept as a ghost offset instead (`starts` of `StoreTokens`). What is proved about it is that the token still lies in the copy at that offset once the loop ends, because later calls only write NUL over delimiters (`TokenStays`). The NUL that terminates each token in the buffer is not modelled: the returned string carries its own length.
- Characters stand for bytes, and inputs hold no embedded NUL. `strndup` stopping early at a NUL is outside the model.
- `in_background` is a `uint8_t` holding 0 or 1; the model uses a `bool`.
- The token loop of `parse_command` (lines 35-37) forms its own method, `StoreTokens`, and lines 38-44 form `SetNameAndBackground`. `ParseCommand` calls them in that order. The statements are the same; only the procedure boundaries are new. `StoreTokens` requires that the cursor returns at most 512 tokens, so that `args[i++]` stays inside the array. `ParseCommand` derives this from the 1024-byte copy (`CursorTokenBound`).
- The interactive read loop of `shell.c` is input and output only, so it is not part of this model.
- `parse_pipeline` and the `Pipeline` record (utils.h:14-20) are declared but have no definition, so they are not part of this model.
- Process execution, pipes, `cd` and shortcut replay are not implemented in utils.c, so they are not part of this model.
