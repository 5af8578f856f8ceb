# smailgun: argument and message parsing, in Dafny

smailgun is a small sendmail replacement. It reads a mail message on standard
input and is meant to hand it to the Mailgun HTTP API. Before anything leaves
the machine, `smailgun.c` does four pieces of plain text processing, and this
project models all four:

- **Recipient splitter** (`recipients.dfy`). `rcpt_parse` turns TAB, LF and
  CR into spaces, then cuts the value of a `To:` header at commas outside
  double quotes and skips the leading white space of each piece. `rcpt_save`
  files one address into the recipient list. It drops empty addresses and
  addresses ending in `;`.
- **Header store** (`header_store.dfy`). `header_save` appends a header line
  to the header list and raises `have_from`, `have_to` and `have_date`. Under
  `-t` it sends the text after `To:` to `rcpt_parse` and takes a `Bcc:` line
  back out of the list.
- **Header reader** (`header_reader.dfy`). `header_parse` is a byte-level
  state machine that remembers only the previous byte:
  - a fold (LF followed by SP or HT) is rewritten to CR LF;
  - LF followed by any other byte completes a header;
  - two LFs in a row end the header section.

  `message.dfy` connects the reader to the store.
- **Header buffer** (`header_buffer.dfy`). The block arithmetic of
  `header_parse` is modelled twice: `size`, `len` and the write cursor `q`,
  once as the source updates them and once with `len` kept equal to the
  cursor. The corrected block holds exactly the reader's pending header.
- **Flag scanner** (`flags.dfy`). `parse_options`, together with `_basename`
  of argv[0], makes one pass over the arguments:
  - a token without a leading `-` is a recipient;
  - a dash token is scanned byte by byte:
    - toggle letters keep scanning;
    - value letters end the token, sometimes taking the next one;
    - action letters print a notice and exit with status 0.

`cstrings.dfy` holds the C string conventions the four share:
- NUL-free strings;
- `isspace`, `strncasecmp` and `strrchr`;
- the helpers `_strndup` and `firsttok`.

Each operation is a pure function over sequences. Globals become fields of a
state record (`Store`, `Options`). The C linked lists become append-only
sequences. Their tail pointers `ht` and `rt` are never set up: they are
zero-initialised globals (smailgun.c:93-94), and nothing points them at
`headers` or `rcpt_list`. So as written, the first header line handed to
`header_save` is stored through NULL (smailgun.c:282), and so would the first
address accepted by `rcpt_save` (smailgun.c:187). The sequences describe the
lists as `ht = &headers` and `rt = &rcpt_list` would set them up. The
as-written behaviour is modelled alongside them, as an undefined result
(`HeaderSaveAsWritten`, `ReadHeadersAsWritten`, `RcptSaveAsWritten`; see
Findings).

Each operation is paired with something it can be checked against:
- the splitter, with an independent reference split (`SplitReference`);
- the reader, with a writer of header sections (`Section`), proved to round-trip;
- the store, with filters over the whole line sequence (`KeptLines`, `ToTexts`);
- the scanner, with per-letter behaviour proved for every token position and
  every following argument, and a shift lemma that explains bundled flags.

`Flags.Outcome` models how `parse_options` ends:
- `Exit(msg)` stands for `pae`, which prints and exits with status 0;
- `Done(recipients, options)` is a normal return;
- `Undefined` stands for reading past a token's terminator or writing past
  the end of `new_argv`.

These undefined paths are an outcome rather than a precondition. Whether one
is taken depends on where the scan stands in each token, so a precondition
would have to repeat the scan.

### Where the code differs from its comments and evident intent

On each point below the model follows the code. The one place where the main
model departs from the code is the list set-up just described: there the
code as written is modelled separately (see Findings).

- `ht` and `rt` are never initialised (smailgun.c:93-94), so the header list
  and the recipient list are written through NULL on their first use.

- Under `-t` only `To:` lines reach `rcpt_parse`. The Cc and Bcc calls are
  commented out (smailgun.c:311, smailgun.c:318). A Bcc line is still taken
  out of the header list.
- `rcpt_parse` no longer calls `rcpt_save`: the call `rcpt_save(addr_parse(r))`
  is commented out (smailgun.c:255). So `HeaderStore` records the text each
  `To:` line would hand to `rcpt_parse` (`toTexts`). `Recipients.RcptSplit`
  composes the two as that commented-out call would. The `addr_parse`
  between them is not part of this model.
- The empty-From test accepts a `From:` line exactly six bytes long
  (smailgun.c:286). Any longer `From:` line counts as a real sender, even one
  that holds only spaces after the colon.
- At end of input, the pending header is handed on only when the last byte
  was LF (smailgun.c:391-420). An unterminated final line is lost. When that
  line is a continuation line, the whole field it continues is lost with it:
  `A: x\n b` yields no header at all.
- `rcpt_parse` emits empty tokens (`a,,b` gives three, `,b` gives two). Only
  `rcpt_save` drops them.
- The remembered previous byte starts out as NUL (smailgun.c:342). So a blank
  first line does not end the header section. It is handed on as one empty
  header line, and the body after it is then read as headers: `\nHi\n\n`
  yields an empty line and `Hi`.
- After a header is handed on, `len` is one behind the write cursor
  (smailgun.c:357, 384, 387). Long headers after the first then lose a byte
  or overrun the block (see Findings). The reader works on sequences and
  behaves like the corrected block (`HeaderBuffer`).

## Model

| member | source | states |
|---|---|---|
| CStrings.Strndup | smailgun.c:99-105 | the copy has exactly `n` bytes, and each equals the byte of `s` at the same index |
| CStrings.FirstTok | smailgun.c:437-451 | there is no token exactly when no byte of the input is a delimiter; otherwise token, delimiter and rest put back together give the input, and the token holds no delimiter |
| CStrings.LastIndexOf | smailgun.c:113-116 | a position found by `strrchr` holds the byte and no later position does; when nothing is found, the byte occurs nowhere |
| CStrings.LTrimSpec | smailgun.c:250-252 | skipping leading white space leaves a suffix of the text; every byte skipped is `isspace`, and the result does not start with one |
| CStrings.HasPrefixCILowered | smailgun.c:284-316 | the `strncasecmp` prefix test holds exactly when the first bytes of the line, lowered, equal the prefix lowered; the lower- and upper-case spellings of a prefix test alike |
| CStrings.FirstIndexIn | smailgun.c:440 | the position `strpbrk` finds: no byte before it is a delimiter, and it is either a delimiter or the end of the string |
| CStrings.CStr | smailgun.c:377-381 | the C string of a buffer is the part before its first NUL: a NUL-free prefix, followed by NUL when it is shorter |
| Recipients.Normalize | smailgun.c:216-225 | length kept; every TAB, LF and CR becomes a space, every other byte is kept, and no TAB, LF or CR remains |
| Recipients.RcptParse | smailgun.c:232-263 | the text yields no token exactly when it is empty |
| Recipients.MarkSeparators | smailgun.c:233-246 | a byte ends a token exactly when it is a comma preceded by an even number of double quotes; every other byte is kept as it is |
| Recipients.RcptParseMatchesReference | smailgun.c:232-263 | the tokens are exactly the independently defined split: pieces between commas outside quotes, each left-trimmed, nothing for empty text or after a final top-level comma |
| Recipients.RcptParseCount | smailgun.c:217-256 | one token per top-level comma, plus one more exactly when the text is non-empty and does not end in a top-level comma; empty tokens count |
| Recipients.RcptParseTokens | smailgun.c:250-254 | every token has lost its leading white space and holds no TAB, LF or CR |
| Recipients.RcptParseNoNul | smailgun.c:244-254 | every token is again a C string |
| Recipients.RcptSave | smailgun.c:164-198 | the list grows by one exactly when the address is non-empty and does not end in `;`, and the new last element is that address; otherwise it is unchanged |
| Recipients.SaveAllAppendsAccepted | smailgun.c:164-198 | saving a token sequence appends exactly the acceptable tokens, in their order, after the existing list |
| Recipients.RcptSplit | smailgun.c:250-256 | splitting and saving appends exactly the acceptable tokens of `rcpt_parse`, in their order; every appended address is non-empty, does not end in `;` and does not start with white space |
| Recipients.RcptSaveAsWritten | smailgun.c:167-197 | in the source's order of tests, with `rt` NULL or pointing at a node: the result is undefined exactly for an empty address at the start of its allocation, or for an accepted address while `rt` is NULL; with `rt` pointing at a node, only the empty address at the start is undefined; every defined result agrees with `RcptSave` |
| RecipientExamples.QuotedDisplayName | smailgun.c:233-248 | for any `"name" addr, rest` where only the quoted name holds commas, the result is exactly the quoted address and the trimmed rest |
| RecipientExamples.QuotedComma | smailgun.c:233-248 | `"Doe, Jane" <jane@x>, bob@y` yields `"Doe, Jane" <jane@x>` and `bob@y` |
| RecipientExamples.EmptyTokenParsed | smailgun.c:244-256 | `a,,b` yields `a`, an empty token, and `b` |
| RecipientExamples.EmptyToken | smailgun.c:164-256 | splitting and saving `a,,b` keeps only `a` and `b` |
| RecipientExamples.EmptyTokenReachesSave | smailgun.c:173-256 | `,b` yields an empty first token that starts the copy; `rcpt_save` as written reads the byte before that allocation, while the corrected version leaves the list alone; the empty token of `a,,b` is read inside the buffer and dropped |
| RecipientExamples.UnsetTailPointer | smailgun.c:183-197 | the address `b` of `,b` is stored through NULL while `rt` is as the source leaves it, and is stored as the list's only element once `rt` points at `rcpt_list` |
| RecipientExamples.SingleToken | smailgun.c:238-254 | text without commas is one token: the whole normalized text, left-trimmed |
| RecipientExamples.GroupTerminator | smailgun.c:167-175 | a group terminator `undisclosed-recipients:;` adds no address |
| RecipientExamples.NormalizeKeeps | smailgun.c:216-225 | text without TAB, LF or CR is left as it is |
| HeaderReader.Flush | smailgun.c:377-381 | the line handed on is a prefix of the buffer's C string: all of it when it holds no LF, otherwise the part before its last LF |
| HeaderReader.Step | smailgun.c:357-389 | one byte keeps the buffer's bookkeeping and becomes the remembered previous byte |
| HeaderReader.Run | smailgun.c:345-390 | the reading loop keeps the buffer's bookkeeping |
| HeaderReader.FlushFolded | smailgun.c:377-381 | completing a buffer whose LFs are all folds hands on a C string whose LFs are all folds |
| HeaderReader.StepGood | smailgun.c:359-389 | each byte keeps this true: every LF in the buffer and in the lines handed on is preceded by CR and followed by SP or HT |
| HeaderReader.HeaderLines | smailgun.c:338-422 | for every input, every line handed to `header_save` is a C string in which each LF is preceded by CR and followed by SP or HT |
| HeaderReader.RunAppend | smailgun.c:345 | reading `a` then `b` is reading `a + b`: the loop carries no other state |
| HeaderReader.StoppedIgnoresRest | smailgun.c:373-385 | once the section has ended, nothing after it changes the lines handed on |
| HeaderReader.BlankLineStops | smailgun.c:373-385 | after two LFs in a row the reader has stopped, whatever came before |
| HeaderReader.RunNoLf | smailgun.c:387-389 | bytes without LF only extend the pending header and hand nothing on |
| HeaderReader.UnterminatedLineDropped | smailgun.c:391-421 | a final line without LF that does not continue the previous header is never handed on |
| HeaderReader.UnterminatedFieldLost | smailgun.c:359-421 | a final continuation line without LF takes the pending field with it: the lines handed on are those before the field |
| HeaderReader.RunEmitted | smailgun.c:345-389 | lines handed on earlier do not influence how the reader goes on |
| HeaderReader.LeadingBlankLineReadsOn | smailgun.c:342-385 | a blank first line before a line that starts a header hands on an empty line and does not stop the reader: the rest is read as if the blank line were absent |
| HeaderReader.ContinuationLine | smailgun.c:359-371 | after a pending LF, a line starting with SP or HT joins the pending header, its LF turned into CR LF |
| HeaderReader.ContinuationLines | smailgun.c:359-389 | all the continuation lines of a field and its final LF join one pending header, each fold ended by CR LF |
| HeaderReader.SectionRoundTrip | smailgun.c:338-422 | a non-empty section of well-formed fields written with bare LFs, then a blank line and any body, comes back as exactly one line per field, in order, each fold turned into CR LF, and the body is never read |
| HeaderReaderExamples.FoldedSubject | smailgun.c:359-387 | `Subject: a\n\tb\n\n` yields only `Subject: a\r\n\tb` |
| HeaderReaderExamples.LeadingBlankLine | smailgun.c:373-381 | a message of two blank lines hands on one empty header line |
| HeaderReaderExamples.HiLines | smailgun.c:359-385 | `Hi\n\n` yields only `Hi` |
| HeaderReaderExamples.BodyReadAsHeaders | smailgun.c:342-385 | an empty header section followed by the body `Hi\n\n` yields an empty line and `Hi`: the body is read as headers |
| HeaderReaderExamples.ContinuedLastLineLost | smailgun.c:359-421 | `A: x\n b` without a final LF yields no header at all |
| HeaderBuffer.Realloc | smailgun.c:349-351 | the grown block has the new size and keeps the old bytes |
| HeaderBuffer.Grow | smailgun.c:348-356 | the loop head keeps `len` and leaves the block within its recorded size |
| HeaderBuffer.Put | smailgun.c:348-389 | one byte either leaves a block within its recorded size or writes outside it |
| HeaderBuffer.Feed | smailgun.c:345-389 | the reading loop on the block either keeps it within its recorded size or writes outside it |
| HeaderBuffer.FeedAppend | smailgun.c:345 | feeding `a` then `b` is feeding `a + b`, and a write outside the block ends it |
| HeaderBuffer.CorrectedPut | smailgun.c:348-389 | with `len` counting every byte written, one byte never writes outside the block, the block keeps holding the pending header, and a completed header hands on the same line as the sequence model |
| HeaderBuffer.CorrectedLf | smailgun.c:348-389 | in the corrected block an LF always leaves the cursor inside the block |
| HeaderBuffer.CorrectedRun | smailgun.c:345-389 | the corrected block holds the pending header after any input, never writing outside itself, and leaves room for the flush at end of input |
| HeaderBuffer.CorrectedMatchesReader | smailgun.c:338-412 | from the start, for every input, the corrected block never writes outside itself, also not in the flush at end of input, and holds exactly the sequence model's pending header |
| HeaderBuffer.AsWrittenDrift | smailgun.c:357-387 | as written, a completed header leaves the cursor one byte ahead of `len` |
| HeaderBuffer.AsWrittenNoLf | smailgun.c:348-389 | as written, bytes without LF below the growth point land at the cursor, and the drift stays |
| HeaderBuffer.AfterFirstHeader | smailgun.c:345-389 | after `A\nx` the block is 2048 bytes long, holds `x`, and `len` is 0 while the cursor is 1 |
| HeaderBuffer.SecondHeader | smailgun.c:345-389 | during a second header short of the growth point, the block holds the header and the cursor is one ahead of `len` |
| HeaderBuffer.Overwrite | smailgun.c:348-387 | as written, growing a full block with the drift moves the cursor back onto the last byte, and the next byte replaces it |
| HeaderBuffer.AsWrittenLosesByte | smailgun.c:348-387 | as written, a second header of 2049 bytes comes out of the block with 2048: one byte is overwritten, while the sequence model keeps all of them |
| HeaderBuffer.FoldPastEnd | smailgun.c:348-370 | as written, an LF and a fold when `len` is `size - 3` write one byte past the block |
| HeaderBuffer.AsWrittenOverruns | smailgun.c:348-387 | as written, a second header folded just below the growth point writes past the 2048-byte block; the corrected block does not |
| HeaderBuffer.AsWrittenEofOverruns | smailgun.c:348-412 | as written, a second header of 2048 bytes whose LF is the last byte of input fills the block, so the flush's `*q = '\0'` at end of input lands past it; the corrected block has room |
| HeaderStore.HeaderSave | smailgun.c:270-333 | a six-byte `From:` line changes nothing; otherwise the line is appended, unless it is a Bcc line under `-t`; each flag is raised by its own kind of line and never lowered; only a To line under `-t` hands on text, namely what follows `To:` |
| HeaderStore.HeaderSaveAsWritten | smailgun.c:276-282 | the copy is stored through `ht` before any test, so the result is undefined exactly when `ht` is NULL; otherwise it is what `HeaderSave` gives |
| HeaderStore.SaveLinesLinked | smailgun.c:276-332 | once `ht` points at a node, saving any run of lines as written gives exactly `SaveLines`; with `ht` NULL, as the source leaves it, every run with at least one line has no defined result |
| HeaderStore.PrefixesDisjoint | smailgun.c:284-316 | no line is two of `From:`, `To:` and `Bcc:` |
| HeaderStore.SaveLines | smailgun.c:326-332 | earlier stored lines are never changed, only appended to |
| HeaderStore.SaveLinesHeaders | smailgun.c:304-332 | after any run of lines, the stored list is the old one followed by exactly the kept lines, in their order |
| HeaderStore.SaveLinesToTexts | smailgun.c:304-308 | under `-t` the texts handed on are those of the To lines, in order; otherwise there are none |
| HeaderStore.StoredLines | smailgun.c:304-332 | from an empty store, exactly the kept lines are stored and exactly the To texts are handed on |
| HeaderStore.BccNeverStored | smailgun.c:309-315 | under `-t` a line is stored exactly when it is neither a Bcc line nor an empty From |
| HeaderStore.HaveFlags | smailgun.c:284-301 | `have_from` ends up set exactly when some From line is not the six-byte one; `have_to` exactly when some line is a To line; `have_date` exactly when some line is a Date line |
| Message.ReadHeaders | smailgun.c:338-422 | reading a header section stores exactly the kept lines the reader hands on, and under `-t` hands on exactly their To texts |
| Message.ReadHeadersAsWritten | smailgun.c:93-94 | with `ht` as the source leaves it, reading a header section has a defined result exactly when the reader hands on no line, and then nothing is stored |
| Message.InitializedRead | smailgun.c:326-332 | with `ht = &headers` before the read, the as-written store is exactly `ReadHeaders` |
| Message.StoredHeadersFolded | smailgun.c:359-381 | every stored header is a C string whose LFs are all folds, and under `-t` none is a Bcc line |
| MessageExamples.Lines | smailgun.c:338-422 | `To: a@x\nBcc: b@x\n\n` yields the two lines `To: a@x` and `Bcc: b@x` |
| MessageExamples.ToAndBcc | smailgun.c:304-315 | under `-t` that message stores only `To: a@x` and hands ` a@x` to `rcpt_parse` |
| MessageExamples.FirstLineThroughNull | smailgun.c:276-315 | as written, the message's first line `To: a@x` is already stored through NULL; with `ht` set up, the store holds only `To: a@x` |
| MessageExamples.ParseOneAddress | smailgun.c:238-254 | ` a@x` splits into the single address `a@x` |
| Flags.Basename | smailgun.c:110-119 | the result is a suffix of the path; a path without `/` is returned whole; otherwise the result starts with its last `/` and holds no other |
| Flags.BasenameIs | smailgun.c:113-118 | for a name without `/`, the base name equals it exactly when the path does; so `/usr/bin/mailq` is never taken for `mailq` |
| Flags.InvocationName | smailgun.c:660-666 | invoked as `mailq` or `newaliases`, the program only prints its notice; under any other name it scans the arguments |
| Flags.Value | smailgun.c:723-792 | a value letter ends its token, taking the next argument exactly when it is the token's last letter and a next argument exists; the letter's global (`config_file`, `minus_F` or `minus_f`) receives that argument or else the rest of the token, and nothing else changes; reached at the terminator (a bare `-b`), it reads past it |
| Flags.BCase | smailgun.c:700-720 | after `-b`, exactly the action letters exit, exactly `m` scans on from the `m` with nothing changed, and a token it ends consumes one or two arguments |
| Flags.BCaseFallsThrough | smailgun.c:720-737 | every other byte after `-b` falls through to `-C`: the configuration file is set from the next argument when that byte ends the token, otherwise from the rest of the token, nothing else changes, and the `-b` case reads past the terminator exactly when the byte it examines is the terminator |
| Flags.OCase | smailgun.c:815-905 | after `-o`, exactly the letters that end the token end it and consume only it, exactly `D` and `o` exit, and every other byte, the terminator included, scans on, setting at most `minus_v` |
| Flags.OCaseScansOn | smailgun.c:823-905 | of the bytes after `-o` that scan on, `e` skips one byte more than the rest, `v` sets `minus_v`, and the others change nothing |
| Flags.Letter | smailgun.c:678-925 | scanning resumes at or after the current byte and within the token; a finished token consumes one or two arguments |
| Flags.Loop | smailgun.c:677-928 | scanning a token always ends: one or two arguments consumed, an exit, or a read past the terminator |
| Flags.Finish | smailgun.c:930-940 | a normal return happens exactly when the recipients fit and there are some exactly when `-t` is off, and then it returns them unchanged |
| Flags.ScanArgs | smailgun.c:668-940 | on a normal return the recipients found so far are kept, the new ones are plain tokens, they fit in `new_argv`, and there are some exactly when `-t` is off |
| Flags.ParseOptions | smailgun.c:652-943 | on a normal return every recipient is a plain token, they fit in `new_argv`, and there are some exactly when `-t` is off |
| Flags.ScanArgsDone | smailgun.c:668-940 | on a normal return the new recipients are plain tokens taken in order from the arguments scanned, and they are exactly the plain arguments the loop examines |
| Flags.ScanArgsRecipients | smailgun.c:668-929 | on a normal return the new recipients are exactly the plain arguments the outer loop examines, in order: none is lost and none is added |
| Flags.SkippedAreValues | smailgun.c:668-929 | on a normal return every argument the outer loop does not examine is the value of the dash token just before it |
| Flags.DoneRecipients | smailgun.c:668-672 | on a normal return the recipients are plain arguments taken verbatim and in order from argv[1..], at most `MAXARGS - 2`, and they are non-empty exactly when `-t` is off; conversely every plain argument the loop examines is a recipient, and every argument it skips is the value of the dash token before it |
| Flags.PlainArguments | smailgun.c:654-672 | with no dash tokens, every argument is a recipient, in order; no argument at all gives the no-recipients exit; `MAXARGS - 1` or more overrun `new_argv` |
| Flags.ValueSeparate | smailgun.c:723-737 | `-C x`, `-F x`, `-f x`, `-r x`: a value letter ending its token takes the whole next argument, whatever it looks like, and skips it |
| Flags.ValueAttached | smailgun.c:723-792 | `-Cx` and the like take the rest of the token and consume only it |
| Flags.ValueForms | smailgun.c:723-792 | `-C x` and `-Cx` have the same effect |
| Flags.QueueAndVersion | smailgun.c:908-924 | `-q` exits with the empty-queue notice and `-V` with the version, whatever follows |
| Flags.BActionExits | smailgun.c:700-719 | `-ba`, `-bd`, `-bi`, `-bp`, `-bs`, `-bt`, `-bv`, `-bz` exit with their notice |
| Flags.OActionExits | smailgun.c:827-870 | `-oD` and `-oo` exit with their notice |
| Flags.BFallsToConfig | smailgun.c:700-737 | any other letter after `-b` (not `m`) falls through to `-C`: `-bq foo` and `-bqfoo` set the configuration file to `foo` |
| Flags.NSkipsNext | smailgun.c:807-809 | `-N` always skips the next argument |
| Flags.AuPrintsOnly | smailgun.c:679-697 | `-au x` skips `x` and `-aux` ends its token, and neither sets anything |
| Flags.RAloneSkips | smailgun.c:749-753 | `-R` alone skips the next argument |
| Flags.ReadsPastTerminator | smailgun.c:677-701 | `-a`, `-b`, `-o` and `-oe` at the end of their token read past its terminator |
| Flags.LoopShift | smailgun.c:677-928 | scanning the rest of a token depends only on the bytes still ahead |
| Flags.SplitOffFlag | smailgun.c:739-757 | a toggle letter, an unlisted letter, or `R` followed by more letters can be split off its token: `-tvX` scans as `-vX` with `-t` already applied |
| Flags.SplitOffOv | smailgun.c:901-903 | `-ov` sets `minus_v` and scanning goes on as for the rest of the token |
| Flags.LoneDash | smailgun.c:674-677 | a lone `-` consumes itself and nothing else |
| Flags.FlagBundle | smailgun.c:677-928 | a token made only of toggle letters sets what those letters set one after the other, and consumes nothing else |

## Left out

- `smailgun()`, `read_config`, `log_event`, `die` and `main` are left out. They cover configuration files, the HTTP request, logging and process exit, which are I/O and foreign calls.
- `pae` appears only as the `Exit(msg)` outcome; what it writes to standard error is not modelled.
- Debug output is left out: the `printf`/`puts` calls, and the `-au` value that is printed.
- Allocation failures (`strdup`, `malloc`, `realloc` returning NULL) are left out; the model has unbounded memory.
- The `REWRITE_DOMAIN` and `HASTO_OPTION` code is left out; it is compiled out.
- `addr_parse` is not part of this model. `RcptSplit` composes `rcpt_parse` with `rcpt_save` directly.
- Bytes are modelled as `char`. `isspace` and `tolower` follow the C locale on ASCII; bytes at 0x80 and above are taken as non-space.
- Reading the message is modelled as a function of its bytes; `fgetc` and EOF are the end of the sequence.
- HeaderReader.Run: keeps the pending header as a sequence. The block arithmetic of `header_parse` (`size`, `len` and the write cursor) is modelled separately in `HeaderBuffer`.
- HeaderReader.SectionRoundTrip: holds for the sequence model, which the corrected block matches (`HeaderBuffer.CorrectedMatchesReader`). It does not hold for the source as written. There, a header after the first that grows the block loses a byte, and a fold just below the growth point writes past the block (see Findings).
- HeaderReader.HeaderLines: describes the lines of the sequence model, that is of the corrected block; for the reason given under `SectionRoundTrip`, the source as written differs on headers after the first that reach the block's growth point.
- HeaderBuffer.Feed: covers the reading loop only. Of the flush at end of input (smailgun.c:391-420), the model keeps only where its first write `*q = '\0'` lands (`EofFlushFits`). That write goes past the block as written (`AsWrittenEofOverruns`), and it stays inside in the corrected block.
- HeaderBuffer.Put: its own contract states only the bound on the block; what a byte does to the block is stated by `CorrectedPut`, `AsWrittenDrift`, `AsWrittenNoLf`, `Overwrite` and `FoldPastEnd`.
- HeaderBuffer.Realloc: the bytes `realloc` adds have unspecified values; here they are NUL. No lemma depends on them.
- HeaderStore.HeaderSave: requires that a line is not a five-byte `From:`. On that line the empty-From test reads the byte after the terminator of the copy.
- HeaderStore.HeaderSave: describes the store as `ht = &headers` would set it up. As written, `ht` is NULL on the first call, and the store at smailgun.c:282 has no defined result (`HeaderSaveAsWritten`, Findings).
- HeaderStore.HeaderSave: with `ht` set up, on the empty-From return the copy stays in the `string` field of the node `ht` points at, and the next header overwrites it. That slot is not modelled; the list itself is unchanged, as stated.
- HeaderStore.StoredLines: describes the list as `ht = &headers` would set it up. As written, from the program's start any non-empty run of lines is undefined (`SaveLinesLinked`).
- HeaderStore.BccNeverStored: holds for the list as `ht = &headers` would set it up; as written, the first line is stored through NULL (`SaveLinesLinked`).
- HeaderStore.HaveFlags: holds for the list as `ht = &headers` would set it up; as written, the first line is stored through NULL before any flag is raised (`SaveLinesLinked`).
- Recipients.RcptSave: checks for the empty string before it reads the last byte, unlike the source, which reads the byte before an empty string (see Findings). It also describes the list as `rt = &rcpt_list` would set it up; as written, the first accepted address is stored through NULL (`RcptSaveAsWritten`).
- Recipients.SaveAllAppendsAccepted: describes the list as `rt = &rcpt_list` would set it up; as written, the first acceptable token is stored through NULL.
- Recipients.RcptSplit: describes the list as `rt = &rcpt_list` would set it up; as written, the first acceptable token is stored through NULL.
- Message.ReadHeaders: requires that no line handed on is a five-byte `From:`, for the same reason as `HeaderSave`.
- Message.ReadHeaders: describes the read with `ht = &headers` set up before it (`InitializedRead`). As written, any section from which the reader hands on a line has no defined result (`ReadHeadersAsWritten`).
- Message.StoredHeadersFolded: holds for the read with `ht` set up, as `ReadHeaders` does.
- MessageExamples.ToAndBcc: shows the read with `ht` set up. As written, the message's first line is already stored through NULL (`FirstLineThroughNull`).
- Flags.ParseOptions: arguments are given as NUL-free strings; `argv[argc] == NULL` is the absence of a next token. The program name `prog` is the base name of argv[0], which `main` computes before the call.
- Flags.Letter: its own contract states only where scanning resumes and how many arguments a finished token consumes; what each letter does is stated by the lemmas about `ScanArgs` in the table.
- Flags.BCase: its own contract characterises the exits and `m`; the fall-through to `-C` on every other byte is stated by `BCaseFallsThrough`.
- Flags.OCase: its own contract characterises the stops, exits and that nothing reads past the terminator; what each byte that scans on does is stated by `OCaseScansOn`.
- HeaderReader.Step: its own contract states only the bookkeeping; what a byte does is stated by `StepGood`, `ContinuationLine`, `RunNoLf` and `BlankLineStops`.
- The `-t` text under Cc is not modelled; in the source its `rcpt_parse` call is commented out, so it has no effect.

## Findings

| source | as written | input that shows it | evidently intended | confidence | as-written member | corrected member |
|---|---|---|---|---|---|---|
| smailgun.c:169-185 | `rcpt_save` steps to the byte before the terminator and reads it before testing whether the string is empty | `,b`, once the call at smailgun.c:255 is enabled: its first token is empty and starts the copy, so `rcpt_save("")` reads the byte before the allocation | test for an empty string first and leave the list unchanged, as the comment "Ignore missing usernames" says; with `rt = &rcpt_list` set up, as in the next row | high; not executed | Recipients.RcptSaveAsWritten, RecipientExamples.EmptyTokenReachesSave | Recipients.RcptSave |
| smailgun.c:93-94 | the tail pointers `ht` and `rt` are zero-initialised globals that nothing points at `headers` or `rcpt_list`; `header_save` stores its copy through `ht` before any test (smailgun.c:282), and `rcpt_save` stores an accepted address through `rt` (smailgun.c:187) | `To: a@x\nBcc: b@x\n\n` on standard input: its first line `To: a@x` is stored through NULL; for `rcpt_save`, once the call at smailgun.c:255 is enabled, the address `b` of `,b` is stored through NULL too | set `ht = &headers` and `rt = &rcpt_list` before the first header is read | high; not executed | HeaderStore.HeaderSaveAsWritten, HeaderStore.SaveLinesLinked, Message.ReadHeadersAsWritten, MessageExamples.FirstLineThroughNull, Recipients.RcptSaveAsWritten, RecipientExamples.UnsetTailPointer | HeaderStore.HeaderSave, Message.ReadHeaders, Message.InitializedRead, Recipients.RcptSave |
| smailgun.c:348-387 | after a header is handed on, `len` is reset to 0 although the byte written next moves the cursor to 1; when the block grows, the cursor is recomputed from `len` | `A\n`, then 2048 `x` bytes and `y`: the byte read at the growth point overwrites the one before it, so the second header loses a byte. `A\n`, then 2046 `x` bytes, then `\n` and a space: the fold's last write lands one byte past the 2048-byte block. `A\n`, then 2047 `x` bytes and `\n`, then end of input: the LF fills the block's last byte, and the flush's `*q = '\0'` (smailgun.c:409) lands one byte past it. Each witness starts with the header `A`, so the drift shows only once `ht` is set up (the previous row's fix); as written, handing on `A` already stores through NULL | count the byte written after a header (`len = 1`), so `len` always equals the cursor and the block always holds the pending header | high; not executed | HeaderBuffer.Put and HeaderBuffer.Feed with `fixed` false, HeaderBuffer.AsWrittenLosesByte, HeaderBuffer.AsWrittenOverruns, HeaderBuffer.AsWrittenEofOverruns | HeaderBuffer.Put and HeaderBuffer.Feed with `fixed` true, HeaderBuffer.CorrectedMatchesReader |
