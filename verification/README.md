# shelly: a verified model of a small job-control shell

This project models the sequential logic of `shelly.c`, a small Unix shell. It covers the four pieces of that logic listed below. The rest of the file is process and terminal plumbing.

- **`getcmd`**, the command-line tokenizer:
  - The line is taken as a NUL-terminated C string.
  - Its first `&` is turned into a space, and the background flag is set.
  - The line is split by `strsep` on space, tab and newline.
  - Each field is cut at its first byte ≤ 32.
  - Empty fields are dropped.
  - At most `MAX_INPUT_ARGS - 1` = 19 tokens are stored in `args`, in order.
- **The background-job table `jobsQueue`**:
  - It has 1000 pid slots, where 0 means free.
  - The parent stores a background child's pid in the first free slot.
  - The `jobs` built-in lists slots from 0 up to the first entry that is not positive.
- **The `echo` built-in**: it writes each non-null `args[1..19]` followed by a space, then one newline.
- **Built-in dispatch**: `args[0]` is compared with `echo`, `cd`, `pwd`, `exit`, `fg` and `jobs`, in that order. Any other name takes the external-command path.

## Modules

- **Basics** (`shell_types.dfy`): bytes are unsigned (0..255). The file holds the source's constants, `Option` and `index`.
- **Reference tokenizer** (`tokenizer.dfy`): the specification of `getcmd` as functions on byte sequences.
  - `Tokens` follows `strsep` field by field. Each field is cut at its first blank byte, and an empty cut is skipped.
  - `TokensFrom(s, i)` is the token list from where `strsep`'s pointer stands, at index `i`.
  - `ExpectedArgs` is what `getcmd` stores for a line.
  - The lemmas prove the token properties and the splitting laws.
- **`getcmd`** (`getcmd.dfy`): the imperative `getcmd`.
  - A NUL-terminated byte array is changed in place, as the C code changes the buffer from `getline`.
  - The `strsep` loop and the `strlen` cut loop are real loops with invariants.
  - The `args` array is filled slot by slot.
  - `SplitLine` and `GetCmd` are proved against `ExpectedArgs`.
  - `SplitIntoArgs` is proved against `FirstArgs` of `Tokens` of the buffer it scans.
  - `StrSep`, `CutAtBlank`, `StoreToken` and `SepAndStore` are proved against the `strsep` field (`FieldEnd`) and `Truncate`.
- **`echo`** (`echo.dfy`): the output `echo` writes, as a loop over `args`. It is proved equal to `EchoOutput`, with properties of that output.
- **The job table** (`jobs.dfy`): a class whose `slots` array is `jobsQueue`.
  - The corrected insertion loop (`AddJob`) and the `jobs` listing loop (`ListJobs`) are proved against `Inserted` and `Listing`.
  - The insertion loop as written is modelled as a step function.
- **Dispatch** (`dispatch.dfy`): the `strcmp` chain on `args[0]`.
- **Main loop** (`main_loop.dfy`): one turn of `main`'s loop. It ties `getcmd`, dispatch and job insertion together.

## Terms and conventions

- A *token* is a non-empty byte sequence with every byte > 32 (`IsToken`).
- `Arg` is one `args` slot: `None` is a null pointer, and `Some(bytes)` points to a C string.
- `getline`'s result is the datatype `ReadResult`:
  - `EndOfFile` covers a return of -1, after which the shell exits.
  - `Line(bytes)` covers a successful read. `Line([])` is the read of length 0.
- `fork`'s result is the parameter `forkResult`. The child's pid 0 is not passed in: the child's choice of command and the parent's bookkeeping are both part of one `Turn`.

## Model

| member | source | states |
|---|---|---|
| ShellTypes.FirstIndex | shelly.c:221 | index(3): None exactly when the byte is absent; otherwise the position of the first occurrence, with none before it |
| Tokenizer.CStrSpec | shelly.c:236 | the C string is the prefix before the first NUL: it holds no NUL, and a NUL follows it when it is shorter than the buffer |
| Tokenizer.TokensStep | shelly.c:234 | one strsep step: a field that ends at the first delimiter yields its cut-down token (or nothing when that is empty), followed by the tokens after the delimiter |
| Tokenizer.TokensAreTokens | shelly.c:234-246 | every stored token is non-empty and has no byte ≤ 32, and there are no more tokens than bytes |
| Tokenizer.FirstArgs | shelly.c:234 | at most MAX_INPUT_ARGS - 1 tokens are kept, they are the first ones in order, and all are kept when fewer arrive |
| Tokenizer.ExpectedArgs | shelly.c:220-250 | what getcmd stores: at most 19 tokens, each non-empty and free of bytes ≤ 32 |
| Tokenizer.ArgVector | shelly.c:229-247 | the args vector has MAX_INPUT_ARGS slots |
| Tokenizer.TokensAppend | shelly.c:234-247 | a delimiter splits the line into halves tokenized on their own: the tokens of a+[d]+b are those of a followed by those of b |
| Tokenizer.EmptyFieldsSkipped | shelly.c:243-247 | consecutive delimiters make an empty field that yields no token and takes no slot |
| Tokenizer.TokensOfToken | shelly.c:234-247 | a single token alone on a line is read back as exactly that token |
| Tokenizer.NoTokensInBlankLine | shelly.c:236-247 | a line of bytes ≤ 32 yields no token |
| Tokenizer.TruncateIsBlankedCStr | shelly.c:236-243 | overwriting each byte ≤ 32 with NUL and then reading the C string is the same as cutting the field at its first byte ≤ 32 |
| Tokenizer.MarkBackgroundReplacesFirstAmpersand | shelly.c:221-224 | the first & becomes a space and every other byte stays as it was, so there is one & fewer and one space more |
| GetCmd.StrSep | shelly.c:234 | strsep: the field ends at the first delimiter, which becomes NUL and after which the scan resumes; or at the terminator, with nothing left; no other byte changes |
| GetCmd.CutAtBlank | shelly.c:236-241 | after the strlen loop the C string at the field is the field cut at its first byte ≤ 32, and no byte outside the field changes |
| GetCmd.StoreToken | shelly.c:243-247 | a non-empty cut field is copied into args[i] and i grows by one; an empty one changes neither |
| GetCmd.SepAndStore | shelly.c:234-247 | one pass of the strsep loop: the loop stops when 19 slots are full; otherwise the next field's token, if any, is stored in the next slot |
| GetCmd.SplitIntoArgs | shelly.c:234-250 | the strsep loop leaves args as ArgVector of the first tokens of the C string and returns their number |
| GetCmd.MarkBackgroundInPlace | shelly.c:220-227 | the flag is 1 exactly when the line holds &, and the buffer holds the line with its first & turned into a space |
| GetCmd.SplitLine | shelly.c:220-250 | for a non-empty line: the flag is 1 exactly when the C string holds &, args is ArgVector(ExpectedArgs(line)), and the count is its length |
| GetCmd.GetCmd | shelly.c:203-251 | end of input exits the shell; a 0-byte read returns 0 and touches neither args nor the flag; any other line is split as in SplitLine |
| GetCmd.LastSlotUnused | shelly.c:234 | the count is at most 19 and args[19] stays null |
| GetCmd.ArgsAsWritten | shelly.c:229-230 | args as the written memset leaves it has MAX_INPUT_ARGS slots |
| GetCmd.ArgsAsWrittenAgree | shelly.c:230 | the written memset gives the intended args exactly when every slot past the tokens and past the 20 cleared bytes was already null |
| Echo.EchoOutput | shelly.c:299-322 | echo's output always ends in a newline |
| Echo.Echo | shelly.c:299-322 | the loop over slots 1..19, with its two writes per non-null slot and the final newline, writes exactly EchoOutput(args), each string up to its terminating NUL |
| Echo.PresentOfArgVector | shelly.c:305-307 | over the vector getcmd stores, the non-null slots from 1 on are exactly tokens 1.. in order |
| Echo.TokensOfSpaced | shelly.c:310-316 | words written each followed by a space are read back by the tokenizer as the same words |
| Echo.SpacedHasNoNewline | shelly.c:310-316 | tokens written with separating spaces contain no newline and no NUL |
| Echo.EchoRepeatsArguments | shelly.c:299-322 | for any command line, tokenizing what echo writes gives back the line's tokens after the first |
| Echo.EchoEndsInOneNewline | shelly.c:319 | for a vector of tokens, the output holds no NUL, and its only newline is its last byte |
| Echo.StaleArgsReachEcho | shelly.c:229-230 | with args cleared as written, "echo x y" after "echo a b c" writes "x y c " and the newline, where "x y " and the newline are due: slot 3 still points to the old "c" (slots 4 to 19 taken to be null before "echo a b c", as on a zeroed stack) |
| Jobs.Inserted | shelly.c:185-194 | insertion keeps the table size |
| Jobs.InsertedSpec | shelly.c:185-194 | the pid goes into the lowest-index free slot, every other slot is unchanged, and a full table is unchanged |
| Jobs.InsertKeepsWellFormed | shelly.c:185-194 | inserting a positive pid keeps the table free of negative entries and of gaps before occupied slots |
| Jobs.ListingIsPositivePrefix | shelly.c:256-263 | jobs lists exactly the longest prefix of positive pids, in slot order, each with its slot index |
| Jobs.ListingShowsAllJobs | shelly.c:256-263 | in a well-formed table a slot is listed exactly when it is occupied |
| Jobs.ListingAfterInsert | shelly.c:185-194 | a job added to a table with room appears as the new last row, and the earlier rows are unchanged |
| Jobs.JobTable.constructor | shelly.c:108 | the table starts with every slot free |
| Jobs.JobTable.AddJob | shelly.c:185-194 | the insertion scan stores the pid in the first free slot and stops, leaving the table well formed: Inserted(old table, pid) |
| Jobs.JobTable.ListJobs | shelly.c:253-265 | the listing loop with its early break prints exactly Listing(table) |
| Jobs.StepAsWritten | shelly.c:187-193 | one turn of the insertion loop as written keeps the table size |
| Jobs.RunAsWritten | shelly.c:187-193 | any number of turns of the loop as written keeps the table size |
| Jobs.InsertionSpinsAsWritten | shelly.c:187-193 | as written, with slot 0 occupied, the loop is still scanning slot 0 with an unchanged table after any number of turns |
| Jobs.InsertionAsWrittenWhenSlotZeroFree | shelly.c:187-193 | as written, with slot 0 free, one turn inserts correctly |
| Dispatch.Name | shelly.c:128-145 | each built-in's name is a non-empty NUL-free string |
| Dispatch.Classify | shelly.c:128-149 | a built-in is chosen only for its own name, and the external path is taken exactly when args[0] matches no built-in name |
| Dispatch.ClassifyName | shelly.c:128-148 | each built-in is reached by its own name: no earlier test shadows a later one |
| Dispatch.NamesDistinct | shelly.c:128-145 | the six built-in names are pairwise different |
| MainLoop.CntAsWritten | shelly.c:118 | cnt as written is 0 or 1 |
| MainLoop.CntAsWrittenLosesCount | shelly.c:118 | as written the branch is still taken exactly when a token was stored, but cnt equals the count only for counts 0 and 1 (3 tokens give 1) |
| MainLoop.NoArgsInEmptyLine | shelly.c:213-214 | an empty line has no tokens |
| MainLoop.Turn | shelly.c:111-196 | one loop turn: end of input exits; no token means no fork; a failed fork exits; otherwise the child runs Classify(args[0]); a background child's pid goes into the first free slot, and the table is otherwise unchanged; cnt is the token count; args becomes ArgVector of the line's tokens for a non-empty line and is untouched on end of input or a 0-byte read |

## Left out

- Process control is left out: OS process semantics, with nothing to state locally. This covers:
  - `fork`, `waitpid` and `execvp`;
  - the exit on fork failure, which is only recorded as the `ForkFailed` outcome;
  - the fact that `echo`, `jobs` and the others run in the child.
- The signal handlers `handle_sigint` and `handle_sigtstp`, and their binding, are left out: they are asynchronous delivery plus `kill`/`exit`.
- Output redirection (the `>` scan with `open`/`dup2`/`close`, and `redirect`) is left out: it is file-descriptor I/O.
- The external-command path is modelled only as the `External` outcome, for the same reason.
- Terminal I/O is not modelled as reads and writes: the prompt `printf`, `getline`, and the `printf` formatting of the `jobs` header and rows. The input line is a parameter, and the output is a byte sequence or a list of `JobRow`s.
- Echo.Echo: write failures and the resulting `writeFailMsg` messages are not modelled; every `write` is taken to succeed.
- Platform `char` signedness is fixed to unsigned bytes (0..255). On a signed-`char` target, bytes ≥ 128 also pass the `<= SPACE` test, so such bytes would cut a token there but do not in this model.
- GetCmd.ArgsAsWritten:
  - It assumes 8-byte little-endian pointers, so `memset` clears slots 0 and 1 whole and slots from 3 on not at all.
  - Slot 2 has only its low 4 bytes cleared. In C the pointer there becomes NULL when its high 4 bytes were already zero (a heap below 4 GiB), and a wild pointer otherwise. The model keeps the old value in slot 2 and does not model either outcome; `Echo.StaleArgsReachEcho` therefore uses a line whose tokens overwrite slot 2.
- GetCmd.StoreToken: `calloc` is taken to succeed; a NULL return, which the `strcpy` that follows would write through (shelly.c:244-245), is not modelled.
- `getline` is modelled only through its three outcomes. The growing buffer it allocates, and the memory never freed (`line`, each `calloc`), are not modelled.
- `memset(jobsQueue, NULL_CHARACTER, sizeof(jobs))` clears `sizeof` of a function rather than of the table. This has no effect, because the global table starts zeroed; the constructor models the zeroed table.
- The loop in `main` never ends, so the `free` loop after it is unreachable and not modelled. Only one turn (`MainLoop.Turn`) is modelled; repeated turns are modelled only through the invariant that turns preserve (`JobTable.Valid`).
- MainLoop.Turn: the `strcmp` calls read `args[0]` and, on the external path, later slots that may be null; only `args[0]` is modelled, and it is non-null whenever a token was stored.
- The green-thread task scheduler, its queues and executors, and the file-system layer are not part of this model.

## Findings

| source | as written | input that shows it | evidently intended | confidence | as-written member | corrected member |
|---|---|---|---|---|---|---|
| shelly.c:186-193 | `jobNum` only advances inside the branch that finds a free slot, so the `while` loop rescans the same occupied slot forever | a second background command while slot 0 still holds the first job's pid | scan upward to the first free slot, store the pid there, and stop (a full table is left unchanged) | high (not executed) | Jobs.InsertionSpinsAsWritten | Jobs.JobTable.AddJob |
| shelly.c:230 | `memset(args, NULL_CHARACTER, MAX_INPUT_ARGS)` clears 20 bytes, not 20 pointers, so slot 2 is left half-cleared and slots from 3 on keep the previous command's pointers | the line `echo a b c` followed by the line `echo x y` | every slot of `args` is null before the tokens are stored, as `echo` (shelly.c:307) relies on | high (not executed) | Echo.StaleArgsReachEcho | GetCmd.SplitLine |
| shelly.c:118 | `cnt = getcmd(...) >= 1` assigns the comparison's truth value, so `cnt` is 0 or 1 | any line with two or more tokens, e.g. `ls -l /tmp` gives cnt 1 | `cnt` holds the token count, and the branch tests `cnt >= 1` | high (not executed) | MainLoop.CntAsWrittenLosesCount | MainLoop.Turn |
