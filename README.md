# mini-bash: a verified model of the shell's string and decision logic

This project models the core of `mini_bash.c`, a minimal interactive shell. The shell:

- reads a line and skips it when it is blank;
- cuts the line into tokens in place (`parse_line`);
- leaves the loop on `exit`, changes directory on `cd`, and otherwise looks the command up, first as `$HOME/<cmd>` and then as `/bin/<cmd>` (`find_executable`, `build_path`);
- runs the command it found and prints how it terminated (`report_status`, `write_int`).

The model keeps the shape of the C code:

- **Loops become methods with loops and invariants.** `parse_line`, `starts_empty_or_ws`, `str_len`, `build_path` and `write_int` are methods.
  - Read-only C strings (`const char *`) are sequences that hold a `'\0'`. This covers the argument of `str_len` and `starts_empty_or_ws`, and `build_path`'s `prefix` and `cmd`.
  - Only the buffers the C code writes are arrays: the line, `argv`, `out` and `buf`.
  - The line buffer is an `array<char>` that ends in `'\0'`.
  - `argv` is an `array<int>` of start indices, and `-1` stands for NULL.
  - `write_int` fills a 32-character buffer in reverse and returns the characters it would write.
- **Each method is proved against a pure specification**, for example:
  - the words of a line (`Tokenizer.Words`), and the first `max_args - 1` of them that `parse_line` keeps. `Tokenizer.Tokens` is that definition, `Words(s)[..min(|Words(s)|, max_args - 1)]`;
  - the joined path (`Paths.JoinPath`);
  - the decimal text of a number (`Decimal.Dec`).
- **Pure decisions become functions.** `find_executable`, `report_status`, `builtin_cd`'s choice of target and the routing in `main` are functions. The environment is a parameter:
  - `HOME` is an `Option<string>`, and `None` means unset;
  - `access(path, X_OK)` is an oracle `canExec: string -> bool`.
- **Each function has a partner definition with a lemma connecting the two:**
  - `find_executable` has a reference first-usable search over the searched directories;
  - `report_status` and `write_int` have parsers that read their output back;
  - `Words` has joining the words with spaces (`Join`).

Modules and files:

- `optional.dfy`: `Option`.
- `cstrings.dfy`: NUL-terminated C strings and `str_len`.
- `tokenizer.dfy`: `starts_empty_or_ws` and `parse_line`.
- `paths.dfy`: `build_path`.
- `resolver.dfy`: `find_executable`.
- `decimal.dfy`: `write_int`.
- `status.dfy`: `report_status`.
- `dispatch.dfy`: the routing of `main`, `builtin_cd`'s target and `print_unknown`'s message.
- `prompt.dfy`: the prompt length (see Findings). `Prompt.WrittenPrompt(len)` is the definition `PROMPT[..len]` of what `write` sends.

## Model

| member | source | states |
|---|---|---|
| CStrings.CStr | mini_bash.c:139-143 | The C string at the start of a buffer holds no NUL, is a prefix of the buffer, and is followed by the buffer's first `'\0'`. |
| CStrings.HoldsCStrIsCStr | mini_bash.c:115-126 | A NUL-free word stored with its terminator at an index is exactly the C string read from that index. |
| CStrings.StrLen | mini_bash.c:139-143 | `str_len` returns the number of characters before the first `'\0'`: the length of the C string. |
| Tokenizer.Words | mini_bash.c:110-131 | Definition of the words of a line: the maximal runs of non-separators, in order. WordsClean, NoWordsIffAllSep and WordsOfJoin state its properties, and ParseLine is proved against it. |
| Tokenizer.WordsClean | mini_bash.c:110-131 | Every word is non-empty, holds none of space, tab, CR or LF, and is made of characters of the line. |
| Tokenizer.TokensClean | mini_bash.c:110-131 | Every token parse_line keeps is a non-empty word free of separators, made of characters of the line. |
| Tokenizer.NoWordsIffAllSep | mini_bash.c:59-65 | A line has no words exactly when all its characters are separators. |
| Tokenizer.BlankLineNoTokens | mini_bash.c:110-113 | A line of separators yields no token. When max_args >= 2, no token means that the line is all separators. |
| Tokenizer.WordsOfJoin | mini_bash.c:113-132 | Joining clean words with single spaces and splitting the result gives the same words back. |
| Tokenizer.TwoWords | mini_bash.c:110-131 | Two words with separator runs before, between and after them are exactly the words of the line. Leading, repeated and trailing separators create no empty words. |
| Tokenizer.LsExample | mini_bash.c:110-132 | The line `"  ls   -l  "` gives the tokens `"ls"` and `"-l"`. |
| Tokenizer.StartsEmptyOrWs | mini_bash.c:59-65 | `starts_empty_or_ws` returns true exactly when every character before `'\0'` is a separator, which is exactly when the line has no word. |
| Tokenizer.WordsResume | mini_bash.c:110-131 | After n tokens, the words of the rest of the line from the scanning point are the words of the line from word n on. The scanning point is at the end of the line or at a non-separator. |
| Tokenizer.WordSlice | mini_bash.c:115-121 | Token n runs from the point where the scan resumes to the next separator or terminator, those characters are word n, and the token is not empty. |
| Tokenizer.TokenKept | mini_bash.c:115-126 | After the loop has taken n tokens, each of them sits in the buffer as a NUL-terminated C string at its start index. |
| Tokenizer.CutChanged | mini_bash.c:123-127 | Every position of the buffer that parse_line changed now holds `'\0'`, held a separator before, and sits just after one of the tokens. |
| Tokenizer.TokenAt | mini_bash.c:300-304 | The C string that `argv[i]` points to after parse_line is token i. |
| Tokenizer.SkipSeparators | mini_bash.c:130-131 | The separator-skipping loops (also the one at lines 110-111) stop at the first non-separator, and never pass the terminator. |
| Tokenizer.ScanWord | mini_bash.c:118-121 | The token loop stops at the first separator or `'\0'`. |
| Tokenizer.TakeToken | mini_bash.c:114-131 | One pass of the token loop records the start of the next token in `argv[argc]`. It cuts the token off with `'\0'` unless the line ends there, and resumes at the start of the following token. |
| Tokenizer.ScanTokens | mini_bash.c:107-132 | The scanning part of parse_line takes exactly \|Tokens(line, max_args)\| tokens, and keeps argc below the size of argv. |
| Tokenizer.ParseLine | mini_bash.c:106-136 | parse_line returns the number of tokens, which is at most max_args - 1. argv[i] is the start index the scan records for token i (`Starts`): the words of the line from argv[i] on are words i, i+1, and so on. Token i is held there as a C string, and argv[argc] is NULL. The rest of argv is untouched. The new buffer is the line with `'\0'` written over the separator after each token, and only such separators change. |
| Tokenizer.StartsAreWordStarts | mini_bash.c:113-121 | The recorded start of token i is where word i begins: the words of the line from there on are words i onward. |
| Tokenizer.ParseFinal | mini_bash.c:134-135 | Storing NULL at argv[argc] completes the state described by `Parsed`. |
| Paths.JoinPathSplits | mini_bash.c:152-155 | The joined path is the prefix, then `'/'`, then the command, at the positions build_path writes them. |
| Paths.JoinPathInjective | mini_bash.c:146-157 | For the same prefix, different command names give different paths. |
| Paths.StoredPathIsCStr | mini_bash.c:155 | The path stored with its terminator reads back as the C string `prefix/cmd`. |
| Paths.BuildPath | mini_bash.c:146-157 | build_path returns true exactly when len(prefix)+1+len(cmd)+1 <= out_sz. On success the buffer starts with `prefix/cmd` and `'\0'`, and the rest is unchanged. On failure nothing is written. |
| Resolver.FindExecutable | mini_bash.c:164-178 | Definition of find_executable: `$HOME/cmd` if HOME is set and non-empty and that path fits and passes the check, else `/bin/cmd` if it does, else nothing. FindIsFirstUsable, PrefersHome, OnlyBinWithoutHome and FindNoneIff state its properties. |
| Resolver.SearchDirs | mini_bash.c:167-173 | The searched directories end in `/bin`. There are two of them exactly when HOME is set and not empty, and then the first is HOME's value. |
| Resolver.FirstUsableSpec | mini_bash.c:164-178 | The reference search finds nothing exactly when no directory is usable. Otherwise it returns the path in the first usable directory. |
| Resolver.FindIsFirstUsable | mini_bash.c:164-178 | find_executable equals the first-usable search over `$HOME`, then `/bin`. |
| Resolver.PrefersHome | mini_bash.c:167-170 | If HOME is set and non-empty, and `$HOME/cmd` fits and passes the check, that path is returned in preference to `/bin/cmd`. |
| Resolver.OnlyBinWithoutHome | mini_bash.c:167-177 | With HOME unset or empty, only `/bin/cmd` is consulted. The result depends only on whether that path fits and passes the check. |
| Resolver.FindNoneIff | mini_bash.c:164-178 | The search fails exactly when no searched directory both fits and passes the check. A result passed the check and fits with its terminator, and no earlier directory was usable. |
| Decimal.Dec | mini_bash.c:28-56 | Definition of the text write_int prints: `"0"`, or `'-'` and the digits of -x, or the digits of x. WriteInt is proved to print it, and DecRoundTrip, DecShape, DecChars and DecIntMin state its properties. |
| Decimal.DigitsRoundTrip | mini_bash.c:47-55 | The digits of n read back as n. |
| Decimal.DigitsOfParse | mini_bash.c:47-55 | A digit string without a leading zero is the digit string of its value. |
| Decimal.DecRoundTrip | mini_bash.c:28-56 | The text write_int prints for x reads back as x. |
| Decimal.DecInjective | mini_bash.c:28-56 | Different numbers print differently. |
| Decimal.DecShape | mini_bash.c:32-44 | The output is `"0"` exactly for 0, starts with `'-'` exactly for negatives, and is never longer than 11 characters for a 32-bit int. |
| Decimal.DecChars | mini_bash.c:37-55 | The output is digits, plus at most a leading `'-'`. |
| Decimal.DigitsLength | mini_bash.c:47 | A number below 10^k has at most k digits, so the digit loop uses at most 10 of the 32 slots. |
| Decimal.DigitsIntMin | mini_bash.c:39-40 | The hard-coded text `"2147483648"` is the digit string of -INT_MIN. |
| Decimal.DecIntMin | mini_bash.c:37-42 | INT_MIN prints as `"-2147483648"`. |
| Decimal.FillDigits | mini_bash.c:47-50 | The build loop stores the digits of v, least significant first, in at most 10 slots: reversed, the stored characters are the digits of v. |
| Decimal.EmitReversed | mini_bash.c:53-55 | The print loop appends the stored characters from the last one to the first. |
| Decimal.WriteDigits | mini_bash.c:46-55 | For 0 < v < 2^31 the two loops print the decimal digits of v, most significant first. |
| Decimal.WriteInt | mini_bash.c:28-56 | write_int prints Dec(x): `"0"` for 0, then a `'-'` for negatives, then the digits, with INT_MIN special-cased. |
| Status.ReportStatus | mini_bash.c:195-209 | Definition of the message for an outcome: the exited or signaled text, then the number in decimal, then `'\n'`; or the fixed unknown-status line. ReportRoundTrip, ReportInjective and ReportIsOneLine state its properties. |
| Status.NumberAfterDec | mini_bash.c:198-205 | A fixed text followed by a printed int and `'\n'` reads back as that int. |
| Status.ReportRoundTrip | mini_bash.c:195-209 | Every outcome is read back from its message. The exited and signaled messages carry the code or signal in decimal after their fixed texts, and the third message is the fixed unknown-status line. |
| Status.ExitedRoundTrip | mini_bash.c:196-200 | `"Command executed successfully. Return code: "`, then dec(code), then `"\n"` reads back as Exited(code). |
| Status.SignaledRoundTrip | mini_bash.c:201-205 | `"Command terminated by signal: "`, then dec(sig), then `"\n"` reads back as Signaled(sig). |
| Status.UnknownRoundTrip | mini_bash.c:206-207 | `"Command finished. (unknown status)\n"` reads back as Unknown. |
| Status.ReportInjective | mini_bash.c:195-209 | Different outcomes give different messages. |
| Status.ReportIsOneLine | mini_bash.c:195-209 | Each message ends with a newline and contains no other. |
| Dispatch.UnknownCommandText | mini_bash.c:184-188 | Definition of print_unknown's message, `"[" + cmd + "]: Unknown Command\n"`. UnknownCommandTextParts states how the command is read back from it. |
| Dispatch.CdAction | mini_bash.c:260-269 | Definition of builtin_cd's choice: argv[1] when argc >= 2, otherwise HOME, and the HOME-not-set diagnostic when HOME is unset. CdArgument, CdHome and HomeNotSetIff state its properties. |
| Dispatch.Dispatch | mini_bash.c:304-313 | Definition of main's routing on the tokens: nothing for no token, then `exit`, `cd`, or an external command looked up in PATH_BUF bytes. ExitWhateverFollows, HomeNotSetIff, UnknownIffNotFound, RunIffFound and RunChecked state its properties. |
| Dispatch.Cycle | mini_bash.c:296-313 | Definition of one pass on a line: a blank line is skipped, otherwise its first MAX_ARGS - 1 words are dispatched. RunCycle is proved to compute it, and BlankCheckRedundant, ExitIff, RunGetsFirstWords and LsRuns state its properties. |
| Dispatch.UnknownCommandTextParts | mini_bash.c:184-188 | The unknown-command message is `'['`, then the command, then `"]: Unknown Command\n"`. |
| Dispatch.ExitWhateverFollows | mini_bash.c:304-306 | A first token `"exit"` ends the loop whatever follows. |
| Dispatch.CdArgument | mini_bash.c:260-263 | `cd` with an argument targets argv[1], whatever HOME is, and writes no diagnostic. |
| Dispatch.CdHome | mini_bash.c:263-264 | `cd` alone targets HOME when it is set, even when it is empty. |
| Dispatch.HomeNotSetIff | mini_bash.c:260-269 | The `"cd: HOME not set\n"` diagnostic occurs exactly for `cd` without argument when HOME is unset. |
| Dispatch.UnknownIffNotFound | mini_bash.c:221-224 | A command is reported unknown exactly when it is no builtin and find_executable fails. The message is `"[" + cmd + "]: Unknown Command\n"`, and nothing is launched. |
| Dispatch.RunIffFound | mini_bash.c:221-234 | A command is launched exactly when it is no builtin and find_executable succeeds. It is launched with the found path and the token list as argv. |
| Dispatch.RunChecked | mini_bash.c:219-221 | A launched path passed the check, fits PATH_BUF with its terminator, and lies in the first searched directory where the command passes. |
| Dispatch.BlankCheckRedundant | mini_bash.c:296-301 | The blank-line check agrees with the no-token check: a pass is decided by the tokens alone. |
| Dispatch.RunGetsFirstWords | mini_bash.c:299-300 | A launched command gets the first min(n, MAX_ARGS - 1) words of the line, each of them clean. Further words are dropped. |
| Dispatch.ExitIff | mini_bash.c:296-306 | A line ends the loop exactly when its first word is `"exit"`. |
| Dispatch.LsRuns | mini_bash.c:296-312 | The line `"  ls   -l  "` runs the found `ls` with the arguments `"ls"` and `"-l"`. |
| Dispatch.ReadTokens | mini_bash.c:304-312 | The C strings argv[0..argc-1] point to after parse_line are the tokens of the line. |
| Dispatch.RunCycle | mini_bash.c:296-313 | One pass of the loop, with starts_empty_or_ws, parse_line into MAX_ARGS slots, the argc == 0 check and the routing on the tokens read back, gives the action `Cycle` specifies for the original line. The buffer is unchanged for a blank line, and is otherwise the line cut by parse_line. |
| Prompt.PromptAsWrittenDropsSpace | mini_bash.c:9-10 | With PROMPT_LEN = 11, `"mini-bash $"` is written, which is not the 12-character PROMPT. |
| Prompt.PromptWrittenWhole | mini_bash.c:9-10 | With the length of PROMPT as PROMPT_LEN, the whole prompt is written. |

## Left out

- `read_line` (mini_bash.c:68-103) is not modelled: it reads byte by byte from stdin and grows the buffer. The model takes the line as given, with its terminating `'\0'`.
- The prompt and diagnostic output is not modelled as writes: `write_str`, `write_chr`, `perror`, and the `write` of the prompt in `main`. Messages are returned as strings, and `Dispatch.ErrorText` gives what goes to standard error.
- `fork`, `execv`, `waitpid` and `_exit` in `execute_external` are left out, and so are their `perror` diagnostics. `Dispatch.Action.Run` names the path and argv to launch, and `Status.Outcome` stands for the wait status that comes back.
- The bit-level `WIFEXITED`, `WEXITSTATUS`, `WIFSIGNALED` and `WTERMSIG` decoding is not modelled, because its encoding lives in platform headers. Outcomes carry any 32-bit code or signal.
- `getenv`, `access` and `chdir` are parameters: HOME is an `Option<string>` and `access(X_OK)` is the oracle `canExec`. There is no filesystem state, and time-of-check versus time-of-use is not modelled.
- `chdir`'s failure and its `perror("chdir")` (mini_bash.c:271-273) are not modelled. `Cd(target)` names the directory, including the empty string for an empty HOME.
- The EOF path and the `free(line)` at the end of `main` are I/O and memory management, so they are left out.
- Paths.BuildPath: `size_t` wrap-around in `p + 1 + c + 1` is not modelled. Lengths are unbounded integers, and no real buffer is near 2^64 characters.
- `build_path` writes into `out` even when `access` later rejects the path. The model returns the chosen path, not the final contents of the buffer after a failed earlier candidate.
- `parse_line`, `write_int` and `main` keep their loops, but some inline loops are split into helper methods so that each proof stays small:
  - `parse_line`: `SkipSeparators`, `ScanWord`, `TakeToken` and `ScanTokens`;
  - `write_int`: `FillDigits` and `EmitReversed`;
  - `main`: `ReadTokens`, which stands for reading `argv[i]` as C strings.
- A `char*` into the line buffer is an index into the array, and NULL is `-1`. Provenance and aliasing between argv and the line are not modelled.

## Findings

| source | as written | input that shows it | evidently intended | confidence | as-written member | corrected member |
|---|---|---|---|---|---|---|
| mini_bash.c:9-10 | `PROMPT_LEN` is 11 while `PROMPT` `"mini-bash $ "` has 12 characters, so `write(STDOUT_FILENO, PROMPT, PROMPT_LEN)` leaves out the trailing space | any prompt: `"mini-bash $"` is written, and the typed command follows `$` directly | the whole prompt, with its trailing space | medium, not executed | Prompt.PromptAsWrittenDropsSpace | Prompt.PromptWrittenWhole |
