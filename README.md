# A model of the agent's tool layer

The repository is an LLM agent loop. The model covers the tools the agent
calls and sets aside the loop itself:

- **Sandboxed file tools.** `get_file_content`, `get_files_info`,
  `write_file` and `run_python_file` resolve a path against a working
  directory and refuse anything outside it.
- **`run_command_in_terminal`.** It drives one persistent bash session
  through a pseudo-terminal and reports the command's output and exit status.
- **`parse_files_info`.** This is the regex parser in the listing tests
  that reads a directory listing back.

## Module layout

- `wrappers.dfy`: `Option` and `Result`.
- `strings.dfy` (`Strings`) holds the string operations the tools rely on:
  - Python's `split` and `join` on one character, with their round trips;
  - `strip` on ASCII whitespace;
  - containment, prefix and suffix tests;
  - decimal text of integers, and its digit-reading inverse.
- `paths.dfy` (`Paths`) models POSIX `os.path`:
  - `join`, `normpath`, `abspath`, `commonpath` and `split`;
  - the containment rule all four file tools share. `commonpath` equals the
    working directory exactly when the working directory's components are a
    prefix of the target's (`PermittedIffPrefix`).

  Three consequences of that rule are proved:
  - an absolute path replaces the working directory in the join;
  - `..` is resolved before the check;
  - a working directory spelled with two leading slashes (`//w`, which
    `normpath` keeps) admits nothing, because `commonpath` returns `/w`.
- `filesystem.dfy` (`FileSystem`) is the disk. It is a map from component
  sequences to `File(content)` or `Dir`, in which every entry sits inside a
  directory.
- `get_file_content.dfy`, `get_files_info.dfy`, `write_file.dfy` and
  `run_python_file.dfy` model one tool each.
  - Each tool is a function from the disk and its arguments to the
    returned text.
  - Where the source works step by step, a method is proved equal to that
    function: the listing loop in `GetFilesInfo.GetFilesInfo`, the output
    list in `RunPythonFile.ExecutionOutput`, and the tool in
    `RunPythonFile.Run`.
  - `write_file` changes the disk, so it is the method
    `WriteFile.Disk.WriteFile` on a class holding the disk. It calls
    `Disk.MakeDirs` (`os.makedirs`). Its new state is proved equal to
    `WriteOutcome`, whose effect is characterised by the lemmas beside it.
- `files_info_parser.dfy` (`FilesInfoParser`) holds three things:
  - the line parser, as the loop `ParseFilesInfo` over a `map`;
  - the lazy regex, as a leftmost search for the size separator;
  - the round trip through `get_files_info`.
- `terminal.dfy` (`Terminal`) models the terminal session:
  - The class `PexpectTerminal` holds the child-process state and the lines
    sent to it.
  - Each pass of `run_command`'s collecting loop is an `Event`. It is either
    a match with its `before` text, or a timeout with the chunk that the
    following non-blocking read returned. A match is of the prompt or of
    end of stream, since both are patterns of `expect_exact`. The number of
    events stands for the time before the deadline.
  - The model also covers the exit-code search, the output cleaner (two
    popping loops), the trailing-prompt strip, and the wrapper that always
    answers with text.

## Where the code and its design notes differ

The model follows the code in each case.

- The design notes describe the collecting loop as ending on the prompt or
  on the deadline. The code also ends it on end of stream.
  - `pexpect.EOF` is one of the patterns passed to `expect_exact`, so
    `expect_exact` returns on it rather than raising.
  - The loop then sets `prompt_detected` exactly as for the prompt.
  - End of stream is therefore reported as a completed command, whose
    status query goes to a shell that has gone.
  - The `except pexpect.EOF` branches of the loop and of
    `_consume_until_prompt` are never taken, so the model has no event for
    them.
- The notes say the first line is dropped if it "equals or contains" the
  command. The code tests only `command in lines[0]`. An empty command
  (no arguments) therefore always loses the first line
  (`EmptyCommandDropsFirstLine`).
- The notes speak of a `timed-out` flag. The code's result has an `error`
  entry instead, and the model uses that.

## Model

| member | source | states |
|---|---|---|
| Paths.PermittedIffPrefix | functions/get_file_content.py:28 | for a normal single-slash working directory, `commonpath([wd, target]) == wd` holds iff wd's components are a prefix of target's |
| Paths.ComponentWise | functions/get_file_content.py:28 | containment compares whole components: `/a/bc` is not inside `/a/b` |
| Paths.DoubleSlashWorkdirPermitsNothing | functions/get_file_content.py:24-28 | a working directory with two leading slashes fails the containment test for every target |
| Paths.AbsoluteReplacesWorkdir | functions/get_file_content.py:25 | joining an absolute path discards the base: the result normalises like the path alone |
| Paths.ResolveRelative | functions/get_file_content.py:25-26 | a relative path resolves to a normal absolute path whose components fold the path's pieces onto the working directory's |
| Paths.NameThenParent | functions/get_file_content.py:26 | `name/../p` resolves to the same path as `p`: `..` is resolved before the check |
| Paths.ResolveIsNormal | functions/get_files_info.py:26 | `normpath(join(abs_wd, p))` is always a normal absolute path |
| Paths.NormpathIdempotent | functions/get_file_content.py:25-26 | `normpath` of a normal path changes nothing, so the second normalisation is redundant |
| Paths.DotIsWorkdir | functions/get_files_info.py:23-28 | the default `"."` resolves to the working directory itself and passes containment |
| Paths.ParentIsOutside | functions/get_files_info.py:26-29 | `"../"` leaves every working directory but `/` |
| Paths.SplitPathOfNormal | functions/run_python_file.py:38 | `os.path.split` of a normal path gives its parent and its last component (the root splits to itself and `""`) |
| GetFileContent.TextMode | functions/get_file_content.py:34-35 | text-mode reading turns `\r\n` and a lone `\r` into `\n`: the text read has no `\r`, is no longer than the stored text, and is the stored text when that has no `\r` |
| GetFileContent.TextModeOfLineEnds | functions/get_file_content.py:34-35 | a `\r\n` and a lone `\r` between plain text each read as one newline |
| GetFileContent.ReadLimited | functions/get_file_content.py:35-40 | text no longer than the limit comes back unchanged; longer text is cut at the limit and followed by the truncation marker; the result never exceeds limit plus marker length |
| GetFileContent.TargetIsResolve | functions/get_file_content.py:25-26 | the path read is `normpath(join(abs_wd, file_path))` in normal form |
| GetFileContent.ReadOutside | functions/get_file_content.py:28-29 | a target outside the working directory gives exactly the "Cannot read … outside" error, whatever the disk holds |
| GetFileContent.ReadInside | functions/get_file_content.py:28-40 | inside the working directory, a regular file gives its text as text mode reads it, limited, and anything else the not-found error |
| GetFileContent.ReadFromDoubleSlashWorkdir | functions/get_file_content.py:24-29 | with a `//`-spelled working directory every read is refused as outside |
| GetFileContent.ReadBinCat | functions/get_file_content.py:25-29 | `"/bin/cat"` replaces the working directory and is refused unless the working directory is `/`, `/bin` or `/bin/cat` |
| GetFilesInfo.EntryOf | functions/get_files_info.py:36-39 | an entry's name is the item, its size is the file's length exactly when it is a regular file, and its flag says whether it is a directory |
| GetFilesInfo.Entries | functions/get_files_info.py:34-40 | one entry per listed item, in listing order |
| GetFilesInfo.FormatLines | functions/get_files_info.py:42-44 | one formatted line per entry, in order |
| GetFilesInfo.GetFilesInfo | functions/get_files_info.py:23-46 | the appending loop and the join compute the tool's result for every input |
| GetFilesInfo.Listing | functions/get_files_info.py:34-44 | the loop over the items builds one entry per item in order, and the join gives the formatted listing of those entries |
| GetFilesInfo.ListOutside | functions/get_files_info.py:26-29 | a directory outside the working directory gives exactly the "Cannot list … outside" error |
| GetFilesInfo.ListParent | functions/get_files_info.py:26-29 | listing `"../"` is refused for any working directory but `/` |
| GetFilesInfo.ListDefault | functions/get_files_info.py:23-28 | listing `"."` lists the working directory itself |
| GetFilesInfo.ListMissing | functions/get_files_info.py:31-32 | a missing target inside the working directory gives `Error: "{directory}" is not a directory` |
| GetFilesInfo.LinesHaveNoNewline | functions/get_files_info.py:42-44 | no formatted line holds a newline when no name does |
| GetFilesInfo.ListingLines | functions/get_files_info.py:42-44 | an empty listing is `""`; otherwise splitting the listing on newlines gives back exactly its lines |
| FilesInfoParser.FindSep | tests/test_get_files_info.py:8 | the lazy name group ends at the leftmost separator that still has text after it |
| FilesInfoParser.MatchFormatEntry | tests/test_get_files_info.py:8-14 | the pattern takes a formatted line apart into its name, its size text and its directory flag |
| FilesInfoParser.SizeOfSizeText | tests/test_get_files_info.py:15 | the size text `None` parses to no size, and a number's text parses to that number |
| FilesInfoParser.FailureSticks | tests/test_get_files_info.py:11-15 | once a size fails to convert, the parse fails whatever lines follow |
| FilesInfoParser.ParseFilesInfo | tests/test_get_files_info.py:6-17 | the loop over the lines computes the fold of the line steps: a map, or the conversion error |
| FilesInfoParser.ParseFormatListing | tests/test_get_files_info.py:6-17 | parsing a formatted listing gives every entry in turn, a later name overwriting an earlier one, for non-empty names without a newline or `, size=` |
| FilesInfoParser.ExpectedRecoversEntries | tests/test_get_files_info.py:15 | with distinct names the parsed map holds exactly the listed names, each with its own size and flag |
| FilesInfoParser.ListingRoundTrip | tests/test_get_files_info.py:6-17 | parsing what `get_files_info` lists recovers each item's size (regular files) and directory flag, and no other name |
| FilesInfoParser.ListDirectoryRoundTrip | functions/get_files_info.py:34-44 | when the items are what `os.listdir` reports, each child once, the parsed names are exactly the directory's children, each with its directory flag and, for a regular file, its size |
| FilesInfoParser.KeysAreChildren | tests/test_get_files_info.py:6-17 | a dict holding each listed item's facts and no other name has the directory's children as its keys |
| FilesInfoParser.ErrorParsesEmpty | tests/test_get_files_info.py:8-13 | an `Error: ` message of one line parses to the empty map |
| FilesInfoParser.LaterLineWins | tests/test_get_files_info.py:15 | a second line with the same name overwrites the first |
| WriteFile.Deepest | functions/write_file.py:37 | the deepest prefix of the directory that already exists |
| WriteFile.MakeDirsSucceedsIff | functions/write_file.py:37 | `makedirs` succeeds iff no prefix of the parent, nor the parent itself, is a regular file |
| WriteFile.MakeDirsEffect | functions/write_file.py:37 | after `makedirs` every prefix of the parent is a directory, the new keys are exactly those prefixes, and existing entries are unchanged |
| WriteFile.Disk.MakeDirs | functions/write_file.py:37 | the two loops compute `makedirs`: the error with the disk unchanged, or the disk with the directories made |
| WriteFile.Disk.WriteFile | functions/write_file.py:24-44 | the returned text and the new disk are the tool's outcome on the old disk, and the disk stays well formed |
| WriteFile.WriteOutside | functions/write_file.py:30-31 | an outside target gives exactly the "Cannot write … outside" error and leaves the disk unchanged |
| WriteFile.WriteFromDoubleSlashWorkdir | functions/write_file.py:26-31 | a `//`-spelled working directory refuses every write and changes nothing |
| WriteFile.WriteToDirectory | functions/write_file.py:33-35 | a target that is an existing directory gives the "as it is a directory" error and changes nothing |
| WriteFile.WriteSucceeds | functions/write_file.py:37-42 | a permitted write returns the success message with the content's length; the target holds exactly the content; every ancestor is a directory; the only new keys are the target and its ancestors; all other entries are unchanged |
| WriteFile.WriteBlocked | functions/write_file.py:37-44 | a regular file on the way to the target makes the write fail with an `Error: ` message and changes nothing |
| WriteFile.WriteKeepsDiskWellFormed | functions/write_file.py:37-40 | every outcome leaves a well-formed disk |
| WriteFile.ReadAfterWrite | functions/write_file.py:39-40 | after a successful write, reading the same path gives the written content as text mode reads it, limited as any read is; content without `\r` comes back as written |
| WriteFile.ReadOthersUnchanged | functions/write_file.py:37-40 | reading any other file gives what it gave before the write |
| WriteFile.WriteChangesNothing | functions/write_file.py:30-40 | unless the write is permitted and unblocked, the disk is left exactly as it was |
| RunPythonFile.Argv | functions/run_python_file.py:43 | the interpreter, then the target, then the arguments (none when absent) |
| RunPythonFile.Report | functions/run_python_file.py:50-61 | a nonzero code gives only the exit line; otherwise the non-empty streams, joined by a newline, or "No output produced" |
| RunPythonFile.ExecutionOutput | functions/run_python_file.py:50-61 | the appends and the join compute `Report` |
| RunPythonFile.Run | functions/run_python_file.py:26-63 | a failed check or a raised exception becomes `Error: ` and its message; otherwise the process is started with the argv, the working directory and 30 seconds, and its outcome is reported |
| RunPythonFile.CheckOrder | functions/run_python_file.py:32-40 | containment is checked first, then an existing regular file, then a last component ending in `.py`; the first failure decides the message |
| RunPythonFile.ValidateResolved | functions/run_python_file.py:27-40 | validation tests the resolved normal path |
| RunPythonFile.RunFromDoubleSlashWorkdir | functions/run_python_file.py:27-33 | a `//`-spelled working directory lets no script run |
| RunPythonFile.ValidTarget | functions/run_python_file.py:28-43 | the script that runs is a regular file at the resolved path, inside the working directory |
| Terminal.Stop | functions/run_command_in_terminal.py:104-131 | the loop stops at the first wait that is not a timeout, or after all waits |
| Terminal.ReceivedIsPrefix | functions/run_command_in_terminal.py:104-131 | the waits done are a prefix of those offered: timeouts, up to at most one match of the prompt or of end of stream |
| Terminal.Collect | functions/run_command_in_terminal.py:98-131 | the buffer is the in-order concatenation of what the waits done received, and the prompt is detected iff the last of them matched |
| Terminal.StripPrompt | functions/run_command_in_terminal.py:70-73 | exactly one trailing copy of the prompt is removed when there is one; otherwise the text is unchanged |
| Terminal.FirstCode | functions/run_command_in_terminal.py:149 | the leftmost `code:` followed by a digit |
| Terminal.ExitCode | functions/run_command_in_terminal.py:146-153 | the exit code is a natural number, 0 when there is no `code:` followed by a digit |
| Terminal.ExitCodeOfStatusLine | functions/run_command_in_terminal.py:144-153 | the status line `code:N` gives back N when no `code:` followed by a digit precedes it and no digit follows it |
| Terminal.ExitCodeOfDigits | functions/run_command_in_terminal.py:146-153 | for any text that is a prefix without a `code:`-digit match, then `code:`, a digit run and a non-digit, the exit code is the value of that digit run |
| Terminal.ExitCodeOfEchoedReply | functions/run_command_in_terminal.py:144-153 | a reply that starts with the echoed query `echo code:$?` still gives back the status, because `$` is not a digit |
| Terminal.SkipBlank | functions/run_command_in_terminal.py:178-179 | the first line from a position that is not blank |
| Terminal.BlankTail | functions/run_command_in_terminal.py:180-181 | the end of a slice once its trailing blank lines are dropped |
| Terminal.CleanBounds | functions/run_command_in_terminal.py:170-183 | the kept lines are a contiguous slice after the possibly dropped first line; only blank lines are dropped around it; it neither starts nor ends with a blank line |
| Terminal.FirstLineDropped | functions/run_command_in_terminal.py:174-179 | the first line goes exactly when it contains the command or is blank |
| Terminal.EmptyCommandDropsFirstLine | functions/run_command_in_terminal.py:174-175 | an empty command is in every line, so the first line always goes |
| Terminal.PopBlankLines | functions/run_command_in_terminal.py:177-181 | the two popping loops leave exactly the slice between the blank ends |
| Terminal.CleanOutput | functions/run_command_in_terminal.py:170-183 | `_clean_output` returns the kept slice joined by newlines |
| Terminal.CleanListingExample | functions/run_command_in_terminal.py:170-183 | `"ls\nfile1\nfile2\n"` cleaned for `ls` is `"file1\nfile2"` |
| Terminal.TimedOutOutcome | functions/run_command_in_terminal.py:135-142 | without a prompt match the result has code -1, no success, the timeout message and the stripped buffer |
| Terminal.CompletedOutcome | functions/run_command_in_terminal.py:144-168 | after a prompt match the code is not negative, success holds iff it is 0, and the output is the cleaned buffer |
| Terminal.ResponseShape | functions/run_command_in_terminal.py:211-219 | the response starts with the success header iff the command succeeded, and otherwise with `Error: Command failed with exit code N` |
| Terminal.PexpectTerminal.constructor | functions/run_command_in_terminal.py:45-46 | a new session has no child and has sent nothing |
| Terminal.PexpectTerminal.IsAlive | functions/run_command_in_terminal.py:185-187 | alive exactly when there is a child and it is alive |
| Terminal.PexpectTerminal.Open | functions/run_command_in_terminal.py:48-64 | a failed spawn changes nothing; otherwise a live shell that has been sent the prompt setting and the `cd` |
| Terminal.PexpectTerminal.Close | functions/run_command_in_terminal.py:189-194 | a live shell is sent `exit` and is then dead; otherwise nothing changes |
| Terminal.PexpectTerminal.Send | functions/run_command_in_terminal.py:96 | `sendline` appends exactly the line to what the shell has been sent and leaves the child as it was |
| Terminal.PexpectTerminal.RunCommand | functions/run_command_in_terminal.py:91-168 | the command is sent, and the status query only when the prompt came back; the result is the outcome of the waits; the shell stays alive |
| Terminal.RunCommandInTerminal | functions/run_command_in_terminal.py:201-221 | the session is opened only when not alive; the arguments are joined with spaces; the answer is the formatted result, or `Error: ` and the spawn failure |

## Left out

- The pseudo-terminal itself is replaced by `Event`s:
  - spawning bash, `sendline`, `expect_exact` and `read_nonblocking`;
  - `time.sleep`, `time.time` and the wall-clock deadline. The number of
    events stands for the time left, and `run_command`'s execution time is
    not modelled.
- What `open` drains with `_consume_until_prompt` is discarded by the
  source, so the model does not read it.
- Terminal.PexpectTerminal.Open: only a failing spawn is modelled as an
  error. A `sendline` or `expect` that raises on a dying shell is not, nor
  is a child that dies by itself. Liveness changes only through `Open` and
  `Close`.
- Terminal.RunCommandInTerminal: the module-level `terminal` instance is
  passed in as a parameter.
- The `PEXPECT_DEBUG` log file and the `print_command_*` calls only
  display. `functions/terminal_ui.py` is not part of this model.
- The `timeout` of `run_command` is a natural number of seconds, and its
  text in the timeout message is its decimal form. A float timeout, which
  Python would print as `30.0`, is not modelled.
- **Tool schemas, the agent loop and the dispatcher.** The
  `types.FunctionDeclaration` schemas, `main.py` and `call_function.py` are
  not part of this model: they are glue over the Gemini client.
- **The real file system.**
  - The disk is a map. What `os.listdir` returns is the parameter `items`.
    Only `ListDirectoryRoundTrip` ties it to the directory, as its children
    each once (`FileSystem.ListsChildren`). The other listing members take
    any items.
  - The size reported is the length of the content in characters.
  - `open` and `read` are the lookup of that content, read through
    text-mode newline translation (`GetFileContent.TextMode`). Writing in
    text mode on POSIX stores the content unchanged.
  - Encodings and permissions are not modelled, nor are the other OS errors
    `open` and `read` raise.
  - Concurrent changes to the disk during `makedirs` are not modelled.
- **The process directory used by `os.path.abspath`** is the parameter
  `cwd`, required to be absolute.
- **`MAX_CHARS`** is the parameter `maxChars`. `config.py` is not part of
  this model.
- **`subprocess.run`** is the parameter `spawn`. It maps the invocation
  (argv, directory, timeout) to the completed process or to the message of
  the exception it raised, so a timeout is one such exception.
- **`repr` in error messages** is simplified to single quotes around the
  text. Python would switch quotes or escape characters for text holding
  quotes, backslashes or unprintable characters. This applies in two places:
  - the path of an OS error (`FileSystem.Quoted`);
  - FilesInfoParser.SizeOf: the text in the `ValueError` message of `int()`.
- **Characters.** Only ASCII whitespace counts for `strip`, and only ASCII
  digits count for `\d` and `int`. Python also accepts other Unicode
  whitespace and digits.
- **Other calculator files.** `calculator/` and `logger.py` are not part of
  this model.
