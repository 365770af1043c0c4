# mysh in Dafny

A model of the core of `mysh`, a small Unix shell written in C. It reads a
line and checks its quotes. It then splits the line at unquoted `;` or `&`
into clauses. Each clause is cut at its one unquoted `>` or `|`, and each
half is turned into a NULL-terminated argument vector. The shell runs the
result as one command, as commands one after the other, or as commands in
parallel. It has the builtins `cd`, `echo`, `pwd` and `bye`, and any other
command is run through `execvp`.

The model has six modules, one file each:

- `CString` (`cstring.dfy`): signed 8-bit `char`s (x86-64 Linux), the
  NUL-terminated string at an index of a buffer, `strlen` and `strchr`.
- `StrQuote` (`strquote.dfy`): `strquote.c`, the quote-aware scanner.
  - `is_str_lit`, `contains_quotes`, `contains_valid_quotes`, `strip_quotes`
    and `get_quote`.
  - `replace_within_quotes` and `restore_within_quotes`, which negate
    delimiters inside quotes and then put them back.
  - `strchr2`, and `strtok2` with its hidden `static` state made an explicit
    `Cursor`.
  - `strtok2` is proved against a reference split: the maximal runs of
    characters that are not unquoted delimiters.
- `Mysh` (`mysh.dfy`): the formatter of `mysh.c`.
  - `is_last_arg`, `rm_newline` and `append_cmd`.
  - `format_cmd` and `split`, which pack tokens NUL after NUL into a zeroed
    buffer.
  - `buf_to_strs`, which reads the buffer back as an argument vector.
- `Redirection` (`redirection.dfy`): `split_redir`.
- `Exec` (`exec.c`, in `exec.dfy`): `exit_status`, `setup_redir`,
  `is_builtin`, `builtin`, `builtin_chdir`, `exec_cmd`, `exec_cmds_seq` and
  `exec_cmds_par`.
  - The operating system is an oracle. Every answer the shell's control flow
    depends on is a parameter: pipe, fork, chdir, open, dup2, close, getcwd,
    execvp and a child's exit code.
  - `World` holds these answers for one `exec_cmd`, `ChildEnv` those a forked
    child gets, and `ParWorld` those for one clause of a `&` line.
- `Dispatch` (`dispatch.dfy`): what `main` does with one line that has been
  read.
  - It rejects the line, runs a single command, or runs clauses in sequence
    or in parallel.
  - `Decide` is that decision as a function; `HandleLine` carries it out on
    the line buffer with the imperative operations.

C buffers that the source changes in place are Dafny `array<Char>`s, and the
methods on them are proved against functions on `seq<Char>`. Code that only
computes a value is a function. A C pointer into a buffer is an index, and
NULL is `None`.

## Model

| member | source | states |
|---|---|---|
| CString.Neg | strquote.c:110 | negating a `char` flips the sign of every value but -128, which wraps to itself |
| CString.IndexOf | strquote.c:40 | `strchr` for a non-NUL character gives the first occurrence, or NULL exactly when the character is absent |
| CString.Strchr | strquote.c:15-16 | `strchr` on a C string: searching for NUL finds the terminator, and any other character its first occurrence |
| CString.StrFrom | strquote.c:131 | the string at an index is the NUL-free run up to the next NUL, or to the end of the buffer |
| CString.StrFromIs | mysh.c:34 | a text followed by NUL at an index is the string read there |
| CString.StrFromRun | mysh.c:133 | a run of non-NUL characters that ends at a NUL is the string read there |
| CString.Strlen | strquote.c:53 | `strlen`: the length of the NUL-free prefix, which ends at a NUL inside the buffer |
| CString.CountAbsent | strquote.c:39-42 | a quote occurs zero times exactly when it is absent, so a line without it passes the parity test |
| StrQuote.IsStrLit | strquote.c:5-12 | true exactly when the token is non-empty and starts with a quote that it also ends with |
| StrQuote.ContainsQuotes | strquote.c:14-24 | -1 exactly when both quote kinds occur, 0 exactly when neither does, else the one kind that occurs |
| StrQuote.ContainsValidQuotes | strquote.c:26-48 | -1 exactly when the counted quote kind occurs an odd number of times, else that kind; `'` is counted when present, else `"` |
| StrQuote.CountPastOccurrence | strquote.c:39-42 | one step of the counting loop moves from one quote to the next and adds exactly one to the count |
| StrQuote.StripQuotes | strquote.c:50-60 | on a string that starts with a quote, the first and last characters become NUL and the result designates the interior; any other string is untouched |
| StrQuote.Interior | strquote.c:50-60 | the string the pointer `strip_quotes` returns designates: both outer characters dropped when the string starts with a quote (nothing left of a one-character string), else the string itself |
| StrQuote.QuoteFrom | strquote.c:62-72 | the first quote character at or after an index within `len`, or `len` when there is none |
| StrQuote.GetQuote | strquote.c:62-72 | 0 exactly when no quote occurs in the first `len` characters; otherwise the quote kind that occurs first |
| StrQuote.QuotingAgrees | strquote.c:74-115 | two buffers with the same quote characters have the same quote kind and the same quoted regions |
| StrQuote.Replaced | strquote.c:74-95 | hiding the delimiters keeps the length, every NUL and everything from `len` on |
| StrQuote.ReplaceWithinQuotes | strquote.c:74-95 | the array afterwards is `Replaced` of the array before |
| StrQuote.ReplaceAt | strquote.c:82-94 | one iteration: the inside flag toggles exactly at a quote, and only the current character changes, negated when it is a quoted delimiter |
| StrQuote.NegateDelimiter | strquote.c:86-90 | the inner loop negates the character when it is one of the delimiters and changes nothing else |
| StrQuote.ReplacedAt | strquote.c:83-90 | each character of the hidden buffer is negated exactly when it lies inside quotes and is a delimiter |
| StrQuote.Restored | strquote.c:97-115 | unhiding keeps the length, every NUL and everything from `len` on |
| StrQuote.RestoreWithinQuotes | strquote.c:97-115 | the array afterwards is `Restored` of the array before |
| StrQuote.RestoreAt | strquote.c:105-114 | one iteration: the inside flag toggles at a quote, and a negative quoted character is negated back |
| StrQuote.RestoredAt | strquote.c:106-111 | each character is negated back exactly when it lies inside quotes and is negative |
| StrQuote.ReplacedKeepsQuoting | strquote.c:83-90 | hiding never creates or removes a quote character, so the quoted regions stay the same |
| StrQuote.RestoreAfterReplace | strquote.c:156-158 | on a buffer with no negative quoted characters, unhiding after hiding gives back the original buffer |
| StrQuote.RestoreFlipsQuotedHighBytes | strquote.c:109-110 | without that condition the round trip fails: a quoted byte 0xC3 comes back as `=` |
| StrQuote.BareFrom | strquote.c:129-140 | the first occurrence of a character at or after an index that is outside quotes and is not a quote itself |
| StrQuote.FindUnquoted | strquote.c:123-141 | `strchr2` finds the first unquoted occurrence of the character |
| StrQuote.FindUnquotedQuoteFree | strquote.c:125-127 | on a line without quotes, `strchr2` answers as `strchr` does |
| StrQuote.Strchr2 | strquote.c:123-141 | the loop returns `FindUnquoted`: an unquoted occurrence, and no earlier unquoted occurrence exists |
| StrQuote.Begin | strquote.c:152-155 | a call with a new string starts at index 0 with `len` = `strlen` |
| StrQuote.FirstWith | strquote.c:157 | the first index at or after a start where the mask has the given value, or the end |
| StrQuote.Cut | strquote.c:157 | one `strtok` call over a separator mask: skip separators; NULL and the cursor at the end when only separators remain; else the token runs to the next separator, which becomes NUL, and the cursor moves past it |
| StrQuote.CutAdvances | strquote.c:157 | a cut by a mask returns NULL exactly when only separators are left, or else the first non-separator; the token ends at the next separator, and the cursor moves forward |
| StrQuote.DelimMask | strquote.c:157 | which characters plain `strtok` treats as delimiters |
| StrQuote.StrtokStep | strquote.c:157 | glibc `strtok` resuming at the cursor: a cut at every byte of `delims` among the first `current_len` characters |
| StrQuote.SepMask | strquote.c:149-160 | the separators of `strtok2`: delimiters that are not inside quotes |
| StrQuote.Strtok2Step | strquote.c:149-160 | one `strtok2` call: `replace_within_quotes`, then `strtok`, then `restore_within_quotes` over `current_len` characters, returning `strtok`'s token and cursor |
| StrQuote.Tokens | strquote.c:149-160 | the texts that successive `strtok2(NULL, delims)` calls return from a cursor on, each read right after its call, up to the first NULL |
| StrQuote.Strtok2Advances | strquote.c:149-160 | after a call, splitting can go on and the cursor has moved forward, so the calls end |
| StrQuote.Spent | strquote.c:149-160 | the buffer left after the calls up to the one returning NULL has the same length |
| StrQuote.Fields | strquote.c:149-160 | the reference split: the non-empty maximal runs between separators |
| StrQuote.FirstWithAgree | strquote.c:157 | masks that agree from an index on find the same next index |
| StrQuote.FieldsAgree | strquote.c:149-160 | the reference split from an index on reads only the characters and separators from there on |
| StrQuote.DelimMaskReplaced | strquote.c:156-157 | after hiding, the delimiters `strtok` sees are exactly the unquoted ones |
| StrQuote.TerminateAtDelimiter | strquote.c:157 | writing NUL over a delimiter changes no quoting |
| StrQuote.ReplacedTerminated | strquote.c:156-158 | hiding commutes with terminating at an unquoted delimiter |
| StrQuote.Strtok2Clean | strquote.c:149-160 | on a buffer with no negative quoted characters, one `strtok2` call is a cut at the unquoted delimiters |
| StrQuote.Strtok2NeverSplitsQuoted | strquote.c:149-160 | a token always ends at an unquoted delimiter or at the end of the line, never inside quotes |
| StrQuote.CutStopsAtSeparator | strquote.c:157 | a token cut by a mask ends at a separator of that mask, or at the end |
| StrQuote.FieldsAfterTerminate | strquote.c:157 | terminating the current token leaves the reference split of the rest unchanged |
| StrQuote.FieldsStep | strquote.c:149-160 | the reference split is the next run followed by the split of what comes after it |
| StrQuote.TokensNone | strquote.c:149-160 | a call returning NULL ends the tokens |
| StrQuote.TokensSome | strquote.c:149-160 | a call returning a token contributes that token, and the tokens go on from the new state |
| StrQuote.TokensAtEnd | strquote.c:149-160 | at the end of the line no token is left |
| StrQuote.TokensStep | strquote.c:149-160 | on a clean buffer, the next token is the next run of the reference split |
| StrQuote.TokensClean | strquote.c:149-160 | on a buffer with no negative quoted characters, the successive `strtok2` tokens are exactly the reference split |
| StrQuote.EchoLineQuotes | strquote.c:62-72 | in `echo 'a b' c` the quote kind is `'`, and only `a b` is inside quotes |
| StrQuote.EchoLineSeparators | strquote.c:149-160 | in `echo 'a b' c` only the two unquoted blanks separate |
| StrQuote.EchoLineFields | strquote.c:149-160 | the reference split of `echo 'a b' c` is `echo`, `'a b'` and `c` |
| StrQuote.Strtok2KeepsQuotedBlank | strquote.c:143-160 | `strtok2` on `echo 'a b' c` gives `echo`, `'a b'` and `c`: the quoted blank does not split |
| StrQuote.Strtok | strquote.c:157 | libc `strtok` on the array does what `StrtokStep` says |
| StrQuote.Strtok2 | strquote.c:149-160 | the method on the array does what `Strtok2Step` says: hide, `strtok`, unhide |
| Mysh.IsLastArg | mysh.c:14-18 | `is_last_arg`: a token is the last argument exactly when it is non-empty and ends with the newline; the empty token is taken not to |
| Mysh.DropNewline | mysh.c:20-25 | the string `rm_newline` leaves: the token without its trailing newline when it has one, else the token itself |
| Mysh.RmNewline | mysh.c:20-25 | the line's trailing newline, if any, becomes NUL, and nothing else changes |
| Mysh.ArgText | mysh.c:27-50 | the text `append_cmd` writes for a token: its trailing newline dropped, then its outer quotes dropped when what remains is a quoted literal |
| Mysh.ArgTextShape | mysh.c:27-50 | the written text is the token without its newline, without its outer quotes when it is a quoted literal, or both; it never grows and never holds NUL |
| Mysh.CopyString | mysh.c:47-48 | `memcpy` writes the text and its NUL at the offset, and the offset moves past them |
| Mysh.RemoveLastNewline | mysh.c:29-31 | the private copy of a newline-terminated token loses its newline |
| Mysh.LastArgText | mysh.c:28-39 | a newline-terminated token, copied, stripped of its newline and then of its quotes, designates `ArgText` |
| Mysh.TokenText | mysh.c:28-45 | the copy made for a token designates `ArgText` of the token |
| Mysh.AppendCmd | mysh.c:27-50 | `append_cmd` writes `ArgText` of the token and a NUL at the offset, and moves the offset past them |
| Mysh.ArgTexts | mysh.c:27-50 | the texts `append_cmd` writes for a list of tokens, one per token |
| Mysh.PackAppend | mysh.c:63-69 | packing a concatenation is packing the parts one after the other |
| Mysh.PackArgTextsShorter | mysh.c:27-50 | writing the texts instead of the tokens never takes more room |
| Mysh.TokensPackBound | mysh.c:52-71 | the packed tokens of a line take at most one byte more than the line |
| Mysh.TokensShape | strquote.c:149-160 | every `strtok2` token is non-empty and NUL-free |
| Mysh.Strtok2Bookkeeping | mysh.c:63-69 | one call in the loop either ends the tokens or hands over the next one and the rest |
| Mysh.AppendedLayout | mysh.c:68 | one `append_cmd` onto a zero-padded packed buffer gives the packed buffer with one more text |
| Mysh.AppendRoom | mysh.c:63-69 | with room for all the tokens, there is room for the next one and the rest |
| Mysh.AppendToken | mysh.c:68 | one `append_cmd` keeps the buffer packed and zero-padded, with the token's text added |
| Mysh.CloseBuffer | mysh.c:66 | the final `*(dest+offset) = '\0'` changes nothing in a zero-padded buffer |
| Mysh.TakeToken | mysh.c:64 | one `strtok2` call in the loop, as `Strtok2Bookkeeping` states |
| Mysh.AppendNext | mysh.c:63-69 | one loop iteration moves one token from the line to the packed buffer |
| Mysh.AppendRest | mysh.c:63-69 | the loop packs all the remaining tokens' texts, counts them, and leaves the line spent |
| Mysh.FormatCmd | mysh.c:52-71 | the buffer holds the texts of the line's blank-separated tokens, each followed by NUL, and zeros after them |
| Mysh.Split | mysh.c:110-125 | the buffer holds the texts of the tokens at `delim`, and the count returned is the number of tokens |
| Mysh.PackTokens | mysh.c:112-123 | from the first token on, the texts of all the tokens are packed and counted |
| Mysh.Strings | mysh.c:127-137 | the strings `buf_to_strs` reads are non-empty and NUL-free |
| Mysh.UpToEmpty | mysh.c:130 | a prefix of the texts that stops just before the first empty one |
| Mysh.PackPrefix | mysh.c:133 | a packed buffer is its first `i` texts packed, followed by the rest packed |
| Mysh.PackedAt | mysh.c:131-133 | the `i`-th text of a packed buffer is read at its offset, and the next text starts one past its NUL |
| Mysh.BufToStrs | mysh.c:127-137 | `buf_to_strs` points at each string of the buffer, and those strings are the packed texts up to the first empty one |
| Mysh.StringStarts | mysh.c:130-134 | the loop stops at the first empty text, having counted and pointed at every text before it |
| Mysh.Offsets | mysh.c:133 | where each text of a packed buffer starts |
| Mysh.PackedLayout | mysh.c:127-137 | a zero-padded packed buffer has its texts at their offsets |
| Mysh.StringsLayout | mysh.c:127-137 | reading from the `i`-th offset gives the texts from `i` up to the first empty one |
| Mysh.StringsStep | mysh.c:130-134 | one iteration: an empty string ends the reading, else it is read and the reading goes on past its NUL |
| Mysh.Argv | mysh.c:292-294 | the argument vector of a command line: its strings are non-empty and NUL-free |
| Mysh.FormatArgv | mysh.c:292-294 | `format_cmd` then `buf_to_strs` point `argv` at the strings of `Argv` |
| Mysh.BlankLineNoArgs | mysh.c:52-71 | a line of blanks, perhaps ending in the newline, has an empty argument vector |
| Mysh.BlankLineTokens | mysh.c:52-71 | the tokens of a blank line are none, or the newline alone |
| Mysh.BlankLineSeparators | strquote.c:149-160 | in a blank line every blank separates |
| Mysh.BlankLineFields | strquote.c:149-160 | the reference split of blanks ending in a newline is the newline alone |
| Mysh.EchoLineArgv | mysh.c:52-71 | the argument vector of `echo 'a b' c` is `echo`, `a b` and `c` |
| Mysh.EchoLineTexts | mysh.c:27-50 | `append_cmd` writes `'a b'` as `a b` and the other tokens as they are |
| Mysh.EmptyLiteralTruncates | mysh.c:127-137 | an empty quoted token `''` or `""` ends the argument vector: no later argument is passed |
| Redirection.Zeroed | mysh.c:103 | `memset` zeroes exactly the range it is given |
| Redirection.ScanOperators | mysh.c:75-86 | the searches find both operators, one twice, neither, or exactly one of `>` and `\|` |
| Redirection.Memset | mysh.c:103 | the array afterwards is `Zeroed` of the array before |
| Redirection.SplitRedir | mysh.c:73-108 | the result, the clause afterwards and the target buffer are as `SplitRedirection` says |
| Redirection.SplitRedirection | mysh.c:73-108 | `split_redir` as a function of the clause: -1 for mixed or repeated operators, 0 with the clause unchanged when no operator occurs unquoted, otherwise the cut at the one operator |
| Redirection.CutAt | mysh.c:86-105 | the cut at the operator, corrected: a missing first token gives -1; otherwise the command's length and the second `strtok2` call decide, as `CutTarget` says |
| Redirection.CutTarget | mysh.c:90-105 | a missing target or one that is exactly a blank, a tab or a newline gives -1; otherwise the target's `append_cmd` text, the target's bytes zeroed from one past the command's end, and the operator as the result |
| Redirection.CutAsWritten | mysh.c:88-89 | the cut as written: undefined (None) exactly when the first `strtok2` call returns NULL, else the corrected cut |
| Redirection.ScanClause | mysh.c:75-85 | the `strchr2` searches give `ScanOperators` |
| Redirection.CutClause | mysh.c:87-105 | the two `strtok2` calls, the copy and the `memset` give `CutAt` |
| Redirection.CutSecond | mysh.c:90-105 | after the first call, the second call, the target check, the copy and the `memset` give `CutTarget` |
| Redirection.WriteTarget | mysh.c:97-99 | the target buffer holds `ArgText` of the target token, zero after it |
| Redirection.TextThenZeros | mysh.c:97-99 | a text and its NUL written into a zeroed buffer leave it holding that text |
| Redirection.CutAtNoCommand | mysh.c:88-89 | a clause holding only the operator (its first `strtok2` call returns NULL) is an invalid redirection (-1), where the source takes `strlen(NULL)` |
| Redirection.CutAtSteps | mysh.c:88-105 | once both calls are made, the cut is decided by the command's length and the second call |
| Redirection.CutAtKinds | mysh.c:88-105 | the cut returns -1 or the operator, and an invalid cut has no target |
| Redirection.SplitRedirectionOutcomes | mysh.c:73-108 | 0 exactly when neither operator occurs unquoted, and then nothing changes; both operators give -1; a positive result is an operator that occurs |
| Redirection.BareIsUnquoted | strquote.c:129-140 | a non-quote character is found by `strchr2` exactly when `strtok2` treats it as a separator |
| Redirection.FirstOperatorMask | mysh.c:75-88 | the operator `strchr2` finds is the first separator `strtok2` cuts at |
| Redirection.FirstCutAtOperator | mysh.c:88 | with a command before the operator, the first call returns the command and cuts at the operator |
| Redirection.Strtok2KeepsPrefix | mysh.c:90 | a `strtok2` call changes nothing before its cursor |
| Redirection.CutKeepsCommand | mysh.c:88-105 | a successful cut leaves exactly the command in the clause |
| Redirection.SecondCutKeepsCommand | mysh.c:90 | the second call keeps the command and its terminating NUL |
| Redirection.TargetKeepsCommand | mysh.c:92-105 | copying the target and zeroing its place keeps the command |
| Redirection.SplitRedirectionKeepsCommand | mysh.c:73-108 | after a successful `split_redir`, the clause holds exactly the text before its operator |
| Redirection.QuoteFreeClean | strquote.c:74-95 | a line without quotes is clean and every delimiter separates |
| Redirection.QuoteFreeFind | strquote.c:123-141 | on a line without quotes, `strchr2` finds the first occurrence |
| Redirection.QuoteFreeScan | mysh.c:75-86 | a quote-free clause with one operator scans as that operator |
| Redirection.CutTokenizable | mysh.c:88-90 | once the clause is cut at the operator, `strtok2` can resume past it |
| Redirection.QuoteFreeFirstCut | mysh.c:88 | on a quote-free clause, the first call returns the command and cuts at the operator |
| Redirection.QuoteFreeSecondCut | mysh.c:90 | on a quote-free clause, the second call returns everything after the operator |
| Redirection.CutToEnd | strquote.c:149-160 | with no delimiter left, the call returns the rest of the line |
| Redirection.QuoteFreeRedirect | mysh.c:73-108 | a quote-free clause with one operator, a command and a target: the result is the operator, the clause is the command, and the target is the text after the operator |
| Redirection.QuoteFreeCutAt | mysh.c:87-105 | the cut on such a clause |
| Redirection.CutTargetToEnd | mysh.c:92-105 | a non-blank target up to the end of the line is copied as its text, and its place is zeroed |
| Redirection.RedirectLine | mysh.c:73-108 | the layout of the clause `ls -l>out.txt` with its newline |
| Redirection.OutTxtText | mysh.c:98 | the target token `out.txt` with the newline is written as `out.txt` |
| Redirection.RedirectToFile | mysh.c:73-108 | `ls -l>out.txt` splits into `>`, the command `ls -l` and the target `out.txt` |
| Redirection.ZeroedToEnd | mysh.c:102-103 | zeroing the target after the cut leaves the command and zeros |
| Redirection.EchoQuotedOperator | mysh.c:75-76 | in `echo ">"` neither operator is found |
| Redirection.QuotedOperatorIgnored | mysh.c:73-108 | `echo ">"` has no redirection, and the clause is left as it was |
| Redirection.BareOperatorCrashes | mysh.c:88-89 | the clause `>` scans as a `>` redirection, the cut as written is undefined, and the corrected cut rejects it |
| Exec.Arg | exec.c:189-190 | `argv[k]` is present exactly when `k` is below the argument count, and NULL otherwise |
| Exec.ExitStatus | exec.c:20-27 | the shell exits exactly on EXIT_BYE, -1 exactly on EXIT_ON_FAILURE, and 0 for every other exit code |
| Exec.ExitOneIsSuccess | exec.c:20-27 | a program that exits with 1 or 0 counts as a success |
| Exec.IsBuiltin | exec.c:118-130 | true exactly for a non-NULL `cd`, `echo`, `pwd` or `bye` |
| Exec.RedirPipe | exec.c:44-56 | negative exactly when the `dup2` or either `close` fails, else `dup2`'s result |
| Exec.SetupRedir | exec.c:58-76 | nothing to do for NUL; for `>`, 0 exactly when the first target word opens; the pipe's answer for `\|`; -1 for any other type |
| Exec.BuiltinSuccess | exec.c:132-172 | `builtin`'s `success`: EXIT_BYE for `bye` with no argument and no redirection, else -1 for `bye`; 0 for `echo`; for `pwd` -1 with an argument or when `getcwd` fails, else 0; -1 for `cd` and any other name |
| Exec.BuiltinExit | exec.c:132-179 | a builtin child exits with 0, EXIT_BYE or EXIT_ON_FAILURE |
| Exec.BuiltinExitCases | exec.c:132-179 | EXIT_BYE exactly for `bye` with no arguments and no redirection; 0 exactly for `echo` or a `pwd` with no arguments whose `getcwd` succeeds; `cd` and unknown names fail |
| Exec.ChdirTo | exec.c:195-198 | $HOME exactly when there is no argument, else the first argument |
| Exec.BuiltinChdir | exec.c:181-204 | 1 exactly when the command is not `cd`; -1 for more than one argument; else chdir's answer |
| Exec.CdTooManyArgs | exec.c:191-193 | a `cd` with too many arguments fails whatever the file system says |
| Exec.ChildExit | exec.c:219-254 | a forked child's exit code: EXIT_ON_FAILURE when `setup_redir` fails; `builtin`'s code for a builtin; otherwise `execvp`'s answer, the program's code or EXIT_ON_FAILURE when it fails |
| Exec.Launch | exec.c:206-264 | `exec_builtin` or `exec_extern`: a builtin first goes through `builtin_chdir` and ends with its result when that is not 1 (only `cd`), without forking; everything else forks and is reaped |
| Exec.Reap | exec.c:242-264 | a failed fork gives -1, else the parent's reading of the child's exit code |
| Exec.EmptyCommandDoesNothing | exec.c:270-271 | an empty command makes no system call and gives 0 |
| Exec.ExecCmd | exec.c:267-304 | `exec_cmd`: 0 for an empty command; -1 when a `|` pipe cannot be set up; the first command's outcome when it ends the shell, fails or has no `|`; else the `close_pipe_parent` failure, or the target command's outcome with -1 when the descriptors cannot be restored |
| Exec.ExecCmdResult | exec.c:267-304 | `exec_cmd` reports success as 0 and failure as a negative number |
| Exec.CdRunsInShell | exec.c:206-210 | `cd` without `\|` runs in the shell, never forks, and gives chdir's result; with too many arguments it gives -1 |
| Exec.ByeExits | exec.c:267-304 | without `\|`, the shell exits exactly when a forked child exits EXIT_BYE; for a builtin without `>`, exactly on a plain `bye` whose fork succeeds |
| Exec.PipeStopsOnFailure | exec.c:276-284 | when the pipe cannot be set up or the first command fails, the result is -1 and the command after `\|` is never started |
| Exec.Outcomes | exec.c:308-309 | the outcome of each command run on its own world |
| Exec.SeqFold | exec.c:306-314 | `exec_cmds_seq`'s bookkeeping over the first `n` outcomes: a Bye ends everything, a negative result replaces `res`, any other leaves it |
| Exec.SeqRun | exec.c:306-314 | the result of running the first `n` commands one after the other, each on its own world |
| Exec.ExecCmdsSeq | exec.c:306-314 | the loop's result is `SeqRun` of all the commands |
| Exec.BeyondBye | exec.c:24-25 | once a command has ended the shell, nothing later changes that |
| Exec.FoldMeaning | exec.c:306-314 | the fold ends the shell exactly when some outcome is `bye`; otherwise it is 0 when nothing failed, or the failure of the last outcome that failed |
| Exec.SeqRunMeaning | exec.c:306-314 | running commands in sequence ends the shell exactly when one of them does; otherwise the result is 0 when none failed, else the last failure |
| Exec.PidOf | exec.c:326-331 | `pids[i]` is positive exactly for a forked child |
| Exec.ParChildExit | exec.c:336-353 | a child that runs a `\|` clause never exits EXIT_BYE |
| Exec.LaunchClause | exec.c:320-355 | launching a non-empty clause runs it in the shell exactly when it is `cd` |
| Exec.LaunchAsWritten | exec.c:320-323 | the launch as written is undefined exactly for an empty clause |
| Exec.Launched | exec.c:319-355 | the corrected launch skips exactly the empty clauses and agrees with the source on all others |
| Exec.Slots | exec.c:319-355 | one launched slot per clause |
| Exec.LaunchRes | exec.c:332-335 | the launch loop's result is -1 exactly when some fork failed, else 0 |
| Exec.ExecCmdsPar | exec.c:316-369 | the result is `ParOutcome` of the launched slots, and `pids[i]` is each slot's value |
| Exec.WaitRun | exec.c:357-367 | the wait loop over the first `n` slots from the launch result: each forked child is reaped with `exit_status`, a Bye ends everything, a -1 replaces the result, and slots without a child are passed over |
| Exec.ParOutcome | exec.c:316-369 | `exec_cmds_par`'s result for the launched slots: the wait loop started from -1 when some fork failed, else from 0 |
| Exec.WaitAll | exec.c:357-367 | the wait loop's result is `WaitRun` over all the slots |
| Exec.LaunchOne | exec.c:320-354 | one launch iteration: the value stored in `pids[i]`, whether the fork failed, and the child's exit code |
| Exec.WaitBeyondBye | exec.c:361 | once a reaped child has ended the shell, nothing later changes that |
| Exec.WaitRunMeaning | exec.c:357-367 | the waits end the shell exactly when some child exits EXIT_BYE; otherwise -1 when some child exits EXIT_ON_FAILURE, else the launch result |
| Exec.ParOutcomeMeaning | exec.c:316-369 | the shell exits exactly when some child exits EXIT_BYE; otherwise -1 exactly when a fork failed or a child failed, else 0, whatever the order of the slots |
| Exec.ParFailedCdUnreported | exec.c:324-327 | a `cd` that fails in a `&` line is not reported when every child succeeds |
| Exec.EmptyClauseUndefined | exec.c:320-323 | an empty clause makes the launch as written undefined; the corrected launch skips it with `pids[i]` = 0 |
| Dispatch.Separator | mysh.c:216-225 | the separator is `;` or `&`, whichever one kind occurs unquoted |
| Dispatch.Splittable | mysh.c:110-114 | a line with a separator has at least one clause, so `split` never hands `append_cmd` a NULL first token |
| Dispatch.ClauseCommand | mysh.c:251-267 | one clause of a multi-command line: cut at its redirection; an invalid one (-1) formats the empty string as the command; the target buffer's argv is the target |
| Dispatch.ClauseCommands | mysh.c:248-270 | the commands of the split texts, one per clause, in order |
| Dispatch.MultiCommands | mysh.c:224-270 | the commands of a line split at `;` or `&`: one per `strtok2` clause, from the text `append_cmd` wrote for it |
| Dispatch.Decide | mysh.c:210-304 | `main`'s decision for a line: rejected for mixed or unbalanced quotes or for both separators; clauses split at `;` (in sequence) or `&` (in parallel); else the single command |
| Dispatch.SingleCommand | mysh.c:280-301 | a line without separators: rejected on an invalid redirection or on a `>` with more than one target word, else the one command |
| Dispatch.CutTargetShape | mysh.c:92-105 | the clause keeps a NUL, and the target is NUL-free and shorter than the clause |
| Dispatch.RedirectShape | mysh.c:73-108 | after `split_redir`, the clause keeps a NUL, and the target is NUL-free and shorter than the clause |
| Dispatch.HeldString | mysh.c:263 | a zeroed target buffer holding a text reads as that text |
| Dispatch.ReadArgv | mysh.c:292-294 | formatting and reading back a line gives `Argv` of the line |
| Dispatch.ReadTarget | mysh.c:293-295 | formatting and reading back the target buffer gives the argument vector of the target |
| Dispatch.HandleClause | mysh.c:251-269 | one clause in its own buffers becomes `ClauseCommand` of the clause |
| Dispatch.HandleClauses | mysh.c:224-270 | `split`, then one command per clause, gives `MultiCommands` |
| Dispatch.HandlePacked | mysh.c:248-270 | walking the split buffer clause by clause gives `ClauseCommands` of its texts |
| Dispatch.HandleSingle | mysh.c:280-300 | the single-command path gives `SingleCommand` |
| Dispatch.HandleLine | mysh.c:210-303 | the handling of one line gives `Decide` of the line |
| Dispatch.EmptyArgv | mysh.c:57-58 | the empty string formats to no arguments |
| Dispatch.ClauseOutcomes | mysh.c:254-263 | a clause's redirection is -1, none, `>` or `\|`; an invalid one runs nothing; none exactly when neither operator occurs unquoted, and then the whole clause is the command |
| Dispatch.DecideOutcomes | mysh.c:210-300 | mixed or odd quotes, or both `;` and `&`, reject the line; a multi line is split at its one separator into one command per clause; a single line has a valid redirection and at most one `>` target; a valid line with a separator is always run as clauses |
| Dispatch.BadClausesRunNothing | mysh.c:255-262 | a clause with an invalid redirection becomes the empty command |
| Dispatch.EmptyClause | mysh.c:251-269 | an empty clause is the empty command |
| Dispatch.LsLineBasics | mysh.c:210-217 | `ls &` with its newline has no quotes and one unquoted `&` |
| Dispatch.LsLineTokens | mysh.c:226 | `split` at `&` gives the clause `ls ` and the newline |
| Dispatch.LsLineText | mysh.c:210-222 | the quote and separator searches on `ls &` find only the `&` |
| Dispatch.LsClauseSearches | mysh.c:75-76 | the clause `ls ` has no redirection operator |
| Dispatch.LsClauseTokens | mysh.c:56 | `ls ` splits at blanks into the one word `ls` |
| Dispatch.LsClauseArgv | mysh.c:262-264 | the argument vector of `ls ` is `ls` |
| Dispatch.ArgvFromTokens | mysh.c:52-71 | the argument vector of a line is the texts of its tokens up to the first empty one |
| Dispatch.LsWord | mysh.c:47-48 | the token `ls` is written as itself |
| Dispatch.LsClause | mysh.c:251-269 | the clause `ls ` is the command `ls` without redirection |
| Dispatch.LsClauseTexts | mysh.c:114-121 | the split texts of `ls &` are `ls ` and the empty text |
| Dispatch.TwoClauses | mysh.c:250-270 | two clauses give their two commands in order |
| Dispatch.LsClauses | mysh.c:224-270 | the clauses of `ls &` are the command `ls` and the empty command |
| Dispatch.DecideMulti | mysh.c:222-278 | a line with valid quotes and one kind of separator is run as the clauses split at it, in parallel exactly for `&` |
| Dispatch.LsInBackground | mysh.c:222-276 | `ls &` is run in parallel as `ls` and an empty clause, on which the launch as written is undefined |

## Left out

- Reading input (mysh.c:152-208) is not modelled: the prompt, batch mode, `fgets`, the 64-character limit and `flush_input_src`. The model starts from a line buffer as `fgets` leaves it.
- Output and error messages (`write`, `log_error`, `printf_debug`) are not modelled. `echo` and `pwd` are modelled by their exit codes only.
- File descriptors are not modelled: `setup_pipe_parent`, `close_pipe_parent` and `restore_stdio` are each one oracle answer in `World`. So is the slip at exec.c:84, where `restore_stdout` duplicates standard input rather than standard output.
- Signals are not modelled. A child is seen only through its exit code, as `WEXITSTATUS` reads it.
- Exec.ExecCmdsPar: `wait` reaps children in whatever order they end; the model reaps them in launch order. Exec.ParOutcomeMeaning shows that the result depends only on which slots there are, not on their order.
- Exec.BuiltinExit: `echo` with no argument passes NULL to `strlen` (exec.c:146). The model treats it as a success.
- StrQuote.TokensClean: the rest of the model keeps `strtok2` as written. The agreement with the reference split is proved only for buffers with no quoted byte of 128 or more, because on the others `restore_within_quotes` alters those bytes.
- Exec.ChildExit: a `|` whose target holds no word (`ls |` followed by two blanks) makes the source call `execvp(NULL, argv)` (exec.c:293-297, exec.c:238), which is undefined. The model lets the same oracle answer as for any other `execvp` decide the exit code, so it promises nothing about that case.
- Exec.SetupRedir: a `>` with no target word calls `open(NULL)`. The model treats it as a failed open.
- Dispatch.HandleClause: each clause of a multi-command line is copied into an array of its own. The source cuts the clauses in place inside one split buffer, so aliasing between clauses is not captured.
- Dispatch.Decide: a line made only of separators (at the end of a file without a final newline) passes a NULL token to `append_cmd` in `split`, which is undefined. The `Splittable` precondition excludes it.
- Mysh.IsLastArg: on the empty token the source reads the byte before the string. The model takes that byte not to be a newline, because the empty token reaches `append_cmd` only as the literal `""`.
- MAX_LEN is not modelled. Buffers are as long as the preconditions ask, and the source's fixed sizes are not checked against them.
- In a multi-command line the number of `>` target words is not checked (mysh.c:250-270); the model does the same.

## Findings

| source | as written | input that shows it | evidently intended | confidence | as-written member | corrected member |
|---|---|---|---|---|---|---|
| mysh.c:88-89 | `strlen` is called on the first `strtok2` token without a NULL check | the line `>;ls`, whose first clause is `>` alone | a clause with no command before its operator is an invalid redirection (-1) | not executed | Redirection.CutAsWritten, Redirection.BareOperatorCrashes | Redirection.CutAt, Redirection.CutAtNoCommand |
| strquote.c:109-110 | `restore_within_quotes` negates back every negative character inside quotes, not only the delimiters `replace_within_quotes` negated | `echo 'é'`: the quoted UTF-8 bytes 0xC3 0xA9 (the `char`s -61 and -87) come back as `=W` | quoted bytes of 128 or more pass through unchanged | not executed | StrQuote.Strtok2Step, StrQuote.RestoreFlipsQuotedHighBytes | StrQuote.TokensClean, StrQuote.RestoreAfterReplace |
| exec.c:320-323 | `cmds[i][0]` is passed to `builtin_chdir` unchecked, so `strcmp` gets NULL for an empty clause | `ls &`: the newline after `&` is a clause with an empty argument vector | skip an empty clause, as `exec_cmd` does (exec.c:270-271) | not executed | Exec.LaunchAsWritten, Exec.EmptyClauseUndefined, Dispatch.LsInBackground | Exec.Launched, Exec.ExecCmdsPar |
