/**
  `run_command_in_terminal`: a persistent bash session driven through a
  pseudo-terminal.  The session itself is not modelled; what the shell sends
  back is given as a sequence of `Event`s, one per pass of the collecting
  loop, and the number of events stands for the time left before the deadline.
 */
module Terminal {
  import opened Wrappers
  import opened Strings

  /** The prompt the session installs, chosen so that ordinary output does not contain it. */
  const PROMPT: string := "PEXPECT_PROMPT_END__> "

  /** The seconds the wrapper lets a command run. */
  const DEFAULT_TIMEOUT: nat := 30

  /** The line sent after a command to learn its exit status. */
  const EXIT_STATUS_QUERY: string := "echo code:$?"

  const SUCCESS_HEADER: string := "COMMAND EXECUTED SUCCESSFULLY\n\nOutput:\n"

  /**
    One wait on the session: `expect_exact` matched the prompt or end of
    stream and `before` is the text ahead of the match; or it timed out and
    a non-blocking read then got `chunk` (empty when that read failed).
    End of stream is one of the patterns waited for, so `expect_exact`
    returns on it rather than raising, and the `except pexpect.EOF`
    branches are never taken.
   */
  datatype Event = Matched(before: string) | Timeout(chunk: string)

  /** The text an event contributes to the buffer. */
  function Text(e: Event): string {
    match e
    case Matched(before) => before
    case Timeout(chunk) => chunk
  }

  /** The texts of `es`, in order. */
  function Concat(es: seq<Event>): string {
    if es == [] then "" else Concat(es[..|es| - 1]) + Text(es[|es| - 1])
  }

  // ---------------------------------------------------------------------------
  // the collecting loop

  /** The first wait that ends the loop (a match), or `|polls|` when the deadline comes first. */
  function Stop(polls: seq<Event>): (n: nat)
    ensures n <= |polls|
    ensures forall k :: 0 <= k < n ==> polls[k].Timeout?
    ensures n < |polls| ==> polls[n].Matched?
  {
    if polls == [] || polls[0].Matched? then 0
    else
      var n := Stop(polls[1..]);
      assert forall k :: 1 <= k < n + 1 ==> polls[k] == polls[1..][k - 1];
      n + 1
  }

  /** The waits the loop performs before it stops. */
  function Received(polls: seq<Event>): seq<Event> {
    polls[..if Stop(polls) < |polls| then Stop(polls) + 1 else |polls|]
  }

  /** The loop ended on a match of the prompt or of end of stream, which sets `prompt_detected` alike. */
  predicate Detected(polls: seq<Event>) {
    Stop(polls) < |polls| && polls[Stop(polls)].Matched?
  }

  /**
    The loop does every wait up to and including the first that is not a
    timeout, and no more; when all are timeouts, it does them all.
   */
  lemma ReceivedIsPrefix(polls: seq<Event>)
    ensures var r := Received(polls);
      r <= polls
      && (forall k :: 0 <= k < |r| - 1 ==> r[k].Timeout?)
      && (|r| < |polls| ==> r != [] && r[|r| - 1].Matched?)
      && (Detected(polls) <==> r != [] && r[|r| - 1].Matched?)
  {
  }

  /** The loop of `run_command`: read until the prompt or end of stream matches, or the deadline. */
  method Collect(polls: seq<Event>) returns (buffer: string, promptDetected: bool)
    ensures buffer == Concat(Received(polls))
    ensures promptDetected <==> Detected(polls)
  {
    buffer := "";
    promptDetected := false;
    var i := 0;
    while i < |polls|
      invariant i <= |polls|
      invariant forall k :: 0 <= k < i ==> polls[k].Timeout?
      invariant buffer == Concat(polls[..i])
      decreases |polls| - i
    {
      assert polls[..i + 1][..i] == polls[..i];
      match polls[i] {
        case Matched(before) =>
          buffer := buffer + before;
          promptDetected := true;
          assert Stop(polls) == i;
          return;
        case Timeout(chunk) =>
          buffer := buffer + chunk;
      }
      i := i + 1;
    }
    assert polls[..i] == polls;
  }

  // ---------------------------------------------------------------------------
  // the exit status

  /** `_consume_until_prompt`'s clean-up: one trailing copy of the prompt is cut off. */
  function StripPrompt(before: string): (r: string)
    ensures EndsWith(before, PROMPT) ==> r + PROMPT == before
    ensures !EndsWith(before, PROMPT) ==> r == before
  {
    if EndsWith(before, PROMPT) then
      var r := before[..|before| - |PROMPT|];
      assert r + PROMPT == before;
      r
    else
      before
  }

  /** What `_consume_until_prompt` returns for one wait. */
  function ConsumeUntilPrompt(e: Event): string {
    match e
    case Matched(before) => StripPrompt(before)
    case Timeout(chunk) => chunk
  }

  /** `code:` followed by a digit starts at `i`. */
  predicate CodeAt(s: string, i: nat) {
    i + 5 < |s| && s[i..i + 5] == "code:" && IsDigit(s[i + 5])
  }

  /** The leftmost match of `code:\d` at or after `i`. */
  function FirstCode(s: string, i: nat): (r: Option<nat>)
    requires i <= |s|
    ensures r.Some? ==> i <= r.value && CodeAt(s, r.value)
    ensures r.Some? ==> forall k :: i <= k < r.value ==> !CodeAt(s, k)
    ensures r.None? ==> forall k :: i <= k ==> !CodeAt(s, k)
    decreases |s| - i
  {
    if i + 5 >= |s| then None
    else if CodeAt(s, i) then Some(i)
    else FirstCode(s, i + 1)
  }

  /**
    `re.search(r"code:(\d+)", text)`: the greedy digit run after the first
    `code:` that a digit follows, read as a number; 0 when there is none.
   */
  function ExitCode(text: string): (code: nat)
    ensures (forall k :: 0 <= k ==> !CodeAt(text, k)) ==> code == 0
  {
    match FirstCode(text, 0)
    case None => 0
    case Some(j) => DigitsValue(LeadingDigits(text[j + 5..]))
  }

  /**
    The status line the shell prints for `echo code:$?` gives back the
    status, wherever it stands, provided no `code:` followed by a digit
    comes before it and no digit right after it.
   */
  lemma ExitCodeOfStatusLine(pre: string, status: nat, post: string)
    requires forall k :: 0 <= k < |pre| ==> !CodeAt(pre, k)
    requires post == [] || !IsDigit(post[0])
    ensures ExitCode(pre + "code:" + NatToString(status) + post) == status
  {
    ExitCodeOfDigits(pre, NatToString(status), post);
    DigitsValueOfNatToString(status);
  }

  /**
    The reply to the status query when the shell echoes the query line
    first: the echoed `code:$?` has no digit after it, so the status line
    decides the exit code.
   */
  lemma ExitCodeOfEchoedReply(eol: string, status: nat, post: string)
    requires forall k :: 0 <= k < |eol| ==> !CodeAt(eol, k)
    requires post == [] || !IsDigit(post[0])
    ensures ExitCode(EXIT_STATUS_QUERY + eol + "code:" + NatToString(status) + post) == status
  {
    EchoHasNoCode(eol);
    ExitCodeOfStatusLine(EXIT_STATUS_QUERY + eol, status, post);
  }

  /** The echoed query line holds `code:` only before `$`, which is not a digit. */
  lemma EchoHasNoCode(eol: string)
    requires forall k :: 0 <= k < |eol| ==> !CodeAt(eol, k)
    ensures forall k :: 0 <= k < |EXIT_STATUS_QUERY + eol| ==> !CodeAt(EXIT_STATUS_QUERY + eol, k)
  {
    var q := EXIT_STATUS_QUERY;
    var s := q + eol;
    forall k | 0 <= k < |s| ensures !CodeAt(s, k) {
      if k < |q| {
        QueryHasNoCode(eol, k);
      } else {
        assert s[|q|..] == eol;
        assert !CodeAt(eol, k - |q|);
        CodeAtShift(q, eol, k - |q|);
      }
    }
  }

  lemma QueryHasNoCode(eol: string, k: nat)
    requires k < |EXIT_STATUS_QUERY|
    ensures !CodeAt(EXIT_STATUS_QUERY + eol, k)
  {
    var q := EXIT_STATUS_QUERY;
    var s := q + eol;
    if k + 5 < |s| {
      assert s[k..k + 5][0] == s[k] == q[k];
      assert s[k..k + 5][1] == s[k + 1];
      if k == 5 {
        assert s[10] == '$';
      } else if k == 1 {
        assert s[2] == 'h';
      } else if k == 11 {
        assert s[11] == '?';
      } else {
        assert q[k] != 'c';
      }
    }
  }

  /** A match of `code:\d` after a prefix is a match in what follows it. */
  lemma CodeAtShift(q: string, eol: string, k: nat)
    requires !CodeAt(eol, k)
    ensures !CodeAt(q + eol, |q| + k)
  {
    var s := q + eol;
    if |q| + k + 5 < |s| {
      assert s[|q| + k..|q| + k + 5] == eol[k..k + 5];
      assert s[|q| + k + 5] == eol[k + 5];
    }
  }

  /** The same for any non-empty run of digits. */
  lemma ExitCodeOfDigits(pre: string, ds: string, post: string)
    requires forall k :: 0 <= k < |pre| ==> !CodeAt(pre, k)
    requires ds != [] && AllDigits(ds)
    requires post == [] || !IsDigit(post[0])
    ensures ExitCode(pre + "code:" + ds + post) == DigitsValue(ds)
  {
    var rest := ds + post;
    Reassociate(pre + "code:", ds, post);
    FirstCodeAfter(pre, rest);
    LeadingDigitsOfDigitsThen(ds, post);
  }

  lemma Reassociate(a: string, b: string, c: string)
    ensures a + b + c == a + (b + c)
  {
  }

  /** The first `code:` with a digit after it is the one right after `pre`. */
  lemma FirstCodeAfter(pre: string, rest: string)
    requires forall k :: 0 <= k < |pre| ==> !CodeAt(pre, k)
    requires rest != [] && IsDigit(rest[0])
    ensures FirstCode(pre + "code:" + rest, 0) == Some(|pre|)
    ensures (pre + "code:" + rest)[|pre| + 5..] == rest
  {
    NoCodeInPre(pre, rest);
    CodeAfter(pre, rest);
    FirstCodeIs(pre + "code:" + rest, |pre|);
  }

  lemma NoCodeInPre(pre: string, rest: string)
    requires forall k :: 0 <= k < |pre| ==> !CodeAt(pre, k)
    ensures forall k :: 0 <= k < |pre| ==> !CodeAt(pre + "code:" + rest, k)
  {
    forall k | 0 <= k < |pre| ensures !CodeAt(pre + "code:" + rest, k) {
      NoCodeBefore(pre, rest, k);
    }
  }

  lemma CodeAfter(pre: string, rest: string)
    requires rest != [] && IsDigit(rest[0])
    ensures CodeAt(pre + "code:" + rest, |pre|)
  {
    var text := pre + "code:" + rest;
    assert text[|pre|..|pre| + 5] == "code:";
    assert text[|pre| + 5] == rest[0];
  }

  lemma FirstCodeIs(text: string, j: nat)
    requires CodeAt(text, j) && forall k :: 0 <= k < j ==> !CodeAt(text, k)
    ensures FirstCode(text, 0) == Some(j)
  {
  }

  /**
    A match starting inside `pre` would lie in `pre`, or have the `c` that
    follows `pre` where a digit must be, or overlap that `c`.
   */
  lemma NoCodeBefore(pre: string, rest: string, k: nat)
    requires !CodeAt(pre, k) && k < |pre|
    ensures !CodeAt(pre + "code:" + rest, k)
  {
    if k + 5 < |pre| {
      NoCodeInside(pre, rest, k);
    } else if k + 5 == |pre| {
      assert (pre + "code:" + rest)[|pre|] == 'c';
    } else {
      NoCodeAcross(pre, rest, k);
    }
  }

  lemma NoCodeInside(pre: string, rest: string, k: nat)
    requires k + 5 < |pre| && !CodeAt(pre, k)
    ensures !CodeAt(pre + "code:" + rest, k)
  {
    var text := pre + "code:" + rest;
    assert pre[k..k + 5] == text[k..k + 5];
    assert pre[k + 5] == text[k + 5];
  }

  /** `code:` has no proper border, so no occurrence overlaps the one that follows `pre`. */
  lemma NoCodeAcross(pre: string, rest: string, k: nat)
    requires k < |pre| < k + 5
    ensures !CodeAt(pre + "code:" + rest, k)
  {
    var text := pre + "code:" + rest;
    if k + 5 < |text| {
      assert text[|pre|] == 'c';
      assert text[k..k + 5][|pre| - k] == text[|pre|];
    }
  }

  // ---------------------------------------------------------------------------
  // cleaning the output

  /** The first line at or after `i` that is not blank, or `|lines|`. */
  function SkipBlank(lines: seq<string>, i: nat): (j: nat)
    requires i <= |lines|
    ensures i <= j <= |lines|
    ensures forall k :: i <= k < j ==> IsBlank(lines[k])
    ensures j < |lines| ==> !IsBlank(lines[j])
    decreases |lines| - i
  {
    if i < |lines| && IsBlank(lines[i]) then SkipBlank(lines, i + 1) else i
  }

  /** The end of `lines[lo..hi]` once its trailing blank lines are dropped. */
  function BlankTail(lines: seq<string>, lo: nat, hi: nat): (j: nat)
    requires lo <= hi <= |lines|
    ensures lo <= j <= hi
    ensures forall k :: j <= k < hi ==> IsBlank(lines[k])
    ensures j > lo ==> !IsBlank(lines[j - 1])
    decreases hi
  {
    if hi > lo && IsBlank(lines[hi - 1]) then BlankTail(lines, lo, hi - 1) else hi
  }

  /**
    The lines `_clean_output` keeps: the first line goes when the command
    occurs in it, then blank lines go from both ends.  What is kept is the
    slice `lines[lo..hi]`: every line dropped is blank (apart from the echoed
    one), and the slice neither starts nor ends with a blank line.
   */
  function CleanBounds(lines: seq<string>, command: string): (b: (nat, nat))
    requires |lines| >= 1
    ensures var start := if Contains(lines[0], command) then 1 else 0;
      start <= b.0 <= b.1 <= |lines|
      && (forall k :: start <= k < b.0 ==> IsBlank(lines[k]))
      && (forall k :: b.1 <= k < |lines| ==> IsBlank(lines[k]))
      && (b.0 < b.1 ==> !IsBlank(lines[b.0]) && !IsBlank(lines[b.1 - 1]))
      && (b.0 == b.1 ==> forall k :: start <= k < |lines| ==> IsBlank(lines[k]))
  {
    var lo := SkipBlank(lines, if Contains(lines[0], command) then 1 else 0);
    (lo, BlankTail(lines, lo, |lines|))
  }

  function CleanLines(output: string, command: string): seq<string> {
    var lines := Split(output, '\n');
    var b := CleanBounds(lines, command);
    lines[b.0..b.1]
  }

  /**
    The first line survives exactly when the command does not occur in it
    and it is not blank.
   */
  lemma FirstLineDropped(output: string, command: string)
    ensures var lines := Split(output, '\n');
      CleanBounds(lines, command).0 >= 1 <==> Contains(lines[0], command) || IsBlank(lines[0])
  {
  }

  /** An empty command occurs in every line, so the first line always goes. */
  lemma EmptyCommandDropsFirstLine(output: string)
    ensures CleanBounds(Split(output, '\n'), "").0 >= 1
  {
    var lines := Split(output, '\n');
    assert StartsWith(lines[0], "");
  }

  /** `_clean_output(output, command)`. */
  method CleanOutput(output: string, command: string) returns (r: string)
    ensures r == Join(CleanLines(output, command), '\n')
  {
    var all := Split(output, '\n');
    var start := if |all| > 0 && Contains(all[0], command) then 1 else 0;
    var lines := PopBlankLines(all, start);
    CleanLinesOfSplit(output, command, all);
    r := Join(lines, '\n');
  }

  /**
    The two loops of `_clean_output`: starting from `all[start..]`, pop
    blank lines off the front, then off the back.
   */
  method PopBlankLines(all: seq<string>, start: nat) returns (lines: seq<string>)
    requires start <= |all|
    ensures lines == all[SkipBlank(all, start)..BlankTail(all, SkipBlank(all, start), |all|)]
  {
    lines := all[start..];
    ghost var lo: nat := start;
    while |lines| > 0 && StripsToEmpty(lines[0])
      invariant start <= lo <= |all| && lines == all[lo..]
      invariant forall k :: start <= k < lo ==> IsBlank(all[k])
      decreases |lines|
    {
      DropFirst(all, lo, lines);
      lines := lines[1..];
      lo := lo + 1;
    }
    if lo < |all| {
      DropFirst(all, lo, lines);
    }
    SkipBlankIs(all, start, lo);
    ghost var hi: nat := |all|;
    WholeSuffix(all, lo, lines);
    while |lines| > 0 && StripsToEmpty(lines[|lines| - 1])
      invariant lo <= hi <= |all| && lines == all[lo..hi]
      invariant forall k :: hi <= k < |all| ==> IsBlank(all[k])
      decreases |lines|
    {
      DropLast(all, lo, hi, lines);
      lines := lines[..|lines| - 1];
      hi := hi - 1;
    }
    if hi > lo {
      DropLast(all, lo, hi, lines);
    }
    BlankTailIs(all, lo, hi, |all|);
  }

  lemma DropFirst(all: seq<string>, lo: nat, lines: seq<string>)
    requires lo < |all| && lines == all[lo..]
    ensures lines[0] == all[lo] && lines[1..] == all[lo + 1..]
  {
  }

  lemma WholeSuffix(all: seq<string>, lo: nat, lines: seq<string>)
    requires lo <= |all| && lines == all[lo..]
    ensures lines == all[lo..|all|]
  {
  }

  lemma DropLast(all: seq<string>, lo: nat, hi: nat, lines: seq<string>)
    requires lo < hi <= |all| && lines == all[lo..hi]
    ensures lines[|lines| - 1] == all[hi - 1] && lines[..|lines| - 1] == all[lo..hi - 1]
  {
  }

  /** `SkipBlank` stops at the first line that is not blank. */
  lemma {:induction false} SkipBlankIs(lines: seq<string>, i: nat, j: nat)
    requires i <= j <= |lines|
    requires forall k :: i <= k < j ==> IsBlank(lines[k])
    requires j < |lines| ==> !IsBlank(lines[j])
    ensures SkipBlank(lines, i) == j
    decreases j - i
  {
    if i < j {
      SkipBlankIs(lines, i + 1, j);
    }
  }

  /** `BlankTail` stops after the last line that is not blank. */
  lemma {:induction false} BlankTailIs(lines: seq<string>, lo: nat, j: nat, hi: nat)
    requires lo <= j <= hi <= |lines|
    requires forall k :: j <= k < hi ==> IsBlank(lines[k])
    requires j > lo ==> !IsBlank(lines[j - 1])
    ensures BlankTail(lines, lo, hi) == j
    decreases hi
  {
    if hi > j {
      BlankTailIs(lines, lo, j, hi - 1);
    }
  }

  /** The echoed `ls` line goes, and so does the empty line after the final newline. */
  lemma CleanListingExample(output: string, command: string)
    requires output == "ls\nfile1\nfile2\n" && command == "ls"
    ensures Join(CleanLines(output, command), '\n') == "file1\nfile2"
  {
    var lines := ["ls", "file1", "file2", ""];
    ListingLines(output, lines);
    ListingBounds(lines, command);
    CleanLinesOfSplit(output, command, lines);
    var kept := CleanLines(output, command);
    MiddleTwo(lines);
    JoinedListing(kept);
  }

  lemma MiddleTwo(lines: seq<string>)
    requires |lines| == 4
    ensures lines[1..3] == [lines[1], lines[2]]
  {
  }

  lemma JoinedListing(kept: seq<string>)
    requires kept == ["file1", "file2"]
    ensures Join(kept, '\n') == "file1\nfile2"
  {
    assert kept[1..] == ["file2"];
    assert Join(kept, '\n') == "file1" + "\n" + "file2";
  }

  lemma ListingLines(output: string, lines: seq<string>)
    requires output == "ls\nfile1\nfile2\n" && lines == ["ls", "file1", "file2", ""]
    ensures Split(output, '\n') == lines
  {
    assert Join(lines, '\n') == output by {
      assert Join(lines[2..], '\n') == "file2\n";
      assert Join(lines[1..], '\n') == "file1\nfile2\n";
    }
    SplitJoin(lines, '\n');
  }

  lemma ListingBounds(lines: seq<string>, command: string)
    requires lines == ["ls", "file1", "file2", ""] && command == "ls"
    ensures CleanBounds(lines, command) == (1, 3)
  {
    assert StartsWith("ls", "ls");
    assert !IsBlank("file1") by { assert !IsSpace("file1"[0]); }
    assert !IsBlank("file2") by { assert !IsSpace("file2"[0]); }
    assert SkipBlank(lines, 1) == 1;
    assert BlankTail(lines, 1, 4) == BlankTail(lines, 1, 3) == 3;
  }

  lemma CleanLinesOfSplit(output: string, command: string, lines: seq<string>)
    requires Split(output, '\n') == lines
    ensures CleanLines(output, command) == lines[CleanBounds(lines, command).0..CleanBounds(lines, command).1]
  {
  }

  // ---------------------------------------------------------------------------
  // results

  /** The dictionary `run_command` returns; `error` is present only for a timeout. */
  datatype CommandResult = CommandResult(stdout: string, exitCode: int, success: bool, error: Option<string>)

  function TimeoutMessage(timeout: nat): string {
    "Command timed out after " + NatToString(timeout) + " seconds"
  }

  /** What `run_command(command, timeout)` returns for the given waits and the reply to the status query. */
  function Outcome(command: string, timeout: nat, polls: seq<Event>, reply: Event): CommandResult {
    var buffer := Concat(Received(polls));
    if !Detected(polls) then CommandResult(Strip(buffer), -1, false, Some(TimeoutMessage(timeout)))
    else
      var code := ExitCode(ConsumeUntilPrompt(reply));
      CommandResult(Join(CleanLines(buffer, command), '\n'), code, code == 0, None)
  }

  /**
    Without a match, that is when every wait before the deadline timed out,
    the result reports a timeout with code -1 and the stripped buffer.
   */
  lemma TimedOutOutcome(command: string, timeout: nat, polls: seq<Event>, reply: Event)
    requires !Detected(polls)
    ensures var r := Outcome(command, timeout, polls, reply);
      r.exitCode == -1 && !r.success && r.error == Some(TimeoutMessage(timeout))
      && r.stdout == Strip(Concat(Received(polls)))
  {
  }

  /**
    After a prompt match the command succeeded exactly when the status read
    back is 0, and the output is the cleaned buffer.
   */
  lemma CompletedOutcome(command: string, timeout: nat, polls: seq<Event>, reply: Event)
    requires Detected(polls)
    ensures var r := Outcome(command, timeout, polls, reply);
      r.exitCode >= 0 && (r.success <==> r.exitCode == 0) && r.error.None?
      && r.stdout == Join(CleanLines(Concat(Received(polls)), command), '\n')
  {
  }

  /** The text the wrapper returns for a result of `run_command`. */
  function FormatResponse(r: CommandResult): string {
    if r.success then SUCCESS_HEADER + r.stdout
    else if r.error.Some? && r.error.value != "" then
      "Error: Command failed with exit code " + IntToString(r.exitCode) + ": " + r.error.value + "\n\nOutput:\n" + r.stdout
    else "Error: Command failed with exit code " + IntToString(r.exitCode) + "\n\nOutput:\n" + r.stdout
  }

  /**
    The response starts with the success header exactly when the command
    succeeded; otherwise it starts with the failure line and its exit code.
   */
  lemma ResponseShape(r: CommandResult)
    ensures StartsWith(FormatResponse(r), SUCCESS_HEADER) <==> r.success
    ensures !r.success ==> StartsWith(FormatResponse(r), "Error: Command failed with exit code " + IntToString(r.exitCode))
  {
    var s := FormatResponse(r);
    var head := "Error: Command failed with exit code " + IntToString(r.exitCode);
    if !r.success {
      assert s[..|head|] == head;
      assert s[0] == 'E' && SUCCESS_HEADER[0] == 'C';
    }
  }

  /** `" ".join(command_line_args)`. */
  function JoinArgs(args: seq<string>): string {
    Join(args, ' ')
  }

  /** The lines `open` sends: install the prompt, then change directory. */
  function OpenLines(workingDirectory: string): seq<string> {
    ["export PS1='" + PROMPT + "'", "cd " + workingDirectory]
  }

  /** The lines `run_command` sends: the command, and the status query only when the prompt came back. */
  function CommandLines(command: string, polls: seq<Event>): seq<string> {
    [command] + if Detected(polls) then [EXIT_STATUS_QUERY] else []
  }

  /** After a match: read the status back from the reply and clean the buffer. */
  method Completed(command: string, buffer: string, reply: Event) returns (result: CommandResult)
    ensures var code := ExitCode(ConsumeUntilPrompt(reply));
      result == CommandResult(Join(CleanLines(buffer, command), '\n'), code, code == 0, None)
  {
    var exitCodeOutput := ConsumeUntilPrompt(reply);
    var exitCode := ExitCode(exitCodeOutput);
    var output := CleanOutput(buffer, command);
    result := CommandResult(output, exitCode, exitCode == 0, None);
  }

  /** The lines sent, appended one at a time. */
  lemma SentLines(s: seq<string>, command: string, polls: seq<Event>)
    ensures Detected(polls) ==> s + CommandLines(command, polls) == s + [command] + [EXIT_STATUS_QUERY]
    ensures !Detected(polls) ==> s + CommandLines(command, polls) == s + [command]
  {
  }

  lemma OutcomeTimedOut(command: string, timeout: nat, polls: seq<Event>, reply: Event)
    requires !Detected(polls)
    ensures Outcome(command, timeout, polls, reply)
      == CommandResult(Strip(Concat(Received(polls))), -1, false, Some(TimeoutMessage(timeout)))
  {
  }

  lemma OutcomeDetected(command: string, timeout: nat, polls: seq<Event>, reply: Event)
    requires Detected(polls)
    ensures var code := ExitCode(ConsumeUntilPrompt(reply));
      Outcome(command, timeout, polls, reply)
      == CommandResult(Join(CleanLines(Concat(Received(polls)), command), '\n'), code, code == 0, None)
  {
  }

  /** The session's child process: none yet, or a shell that is alive or has ended. */
  datatype ChildState = NoChild | Child(alive: bool)

  /**
    The terminal session.  `sent` holds the lines sent to the current shell,
    oldest first.
   */
  class PexpectTerminal {
    var child: ChildState
    var sent: seq<string>

    constructor ()
      ensures child == NoChild && sent == []
    {
      child := NoChild;
      sent := [];
    }

    /** `is_alive()`. */
    method IsAlive() returns (alive: bool)
      ensures alive <==> child == Child(true)
    {
      alive := child.Child? && child.alive;
    }

    /**
      `open(working_directory)`: start a new shell, install the prompt and
      change to the working directory.  When the shell cannot be started,
      the error is returned and nothing changes.
     */
    method Open(workingDirectory: string, spawnError: Option<string>) returns (err: Option<string>)
      modifies this
      ensures spawnError.Some? ==> err == spawnError && child == old(child) && sent == old(sent)
      ensures spawnError.None? ==> err == None && child == Child(true) && sent == OpenLines(workingDirectory)
    {
      if spawnError.Some? {
        return spawnError;
      }
      child := Child(true);
      sent := [];
      sent := sent + ["export PS1='" + PROMPT + "'"];
      sent := sent + ["cd " + workingDirectory];
      err := None;
    }

    /** `close()`: a live shell is told to exit and is then gone; otherwise nothing happens. */
    method Close()
      modifies this
      ensures old(child) == Child(true) ==> child == Child(false) && sent == old(sent) + ["exit"]
      ensures old(child) != Child(true) ==> child == old(child) && sent == old(sent)
    {
      if child.Child? && child.alive {
        sent := sent + ["exit"];
        child := Child(false);
      }
    }

    /** `sendline(line)` to the live shell. */
    method Send(line: string)
      modifies this
      ensures child == old(child) && sent == old(sent) + [line]
    {
      sent := sent + [line];
    }

    /**
      `run_command(command, timeout)`: send the command, collect its output,
      and, only when the prompt came back, ask for its exit status.
     */
    method RunCommand(command: string, timeout: nat, polls: seq<Event>, reply: Event) returns (result: CommandResult)
      requires child == Child(true)
      modifies this
      ensures child == old(child)
      ensures sent == old(sent) + CommandLines(command, polls)
      ensures result == Outcome(command, timeout, polls, reply)
    {
      SentLines(sent, command, polls);
      Send(command);
      var buffer, promptDetected := Collect(polls);
      if !promptDetected {
        OutcomeTimedOut(command, timeout, polls, reply);
        return CommandResult(Strip(buffer), -1, false, Some(TimeoutMessage(timeout)));
      }
      Send(EXIT_STATUS_QUERY);
      OutcomeDetected(command, timeout, polls, reply);
      result := Completed(command, buffer, reply);
    }
  }

  /** The response for a command run on a live session. */
  function Response(command: string, polls: seq<Event>, reply: Event): string {
    FormatResponse(Outcome(command, DEFAULT_TIMEOUT, polls, reply))
  }

  /**
    `run_command_in_terminal(working_directory, command_line_args)` on the
    global session: open it only when it is not alive, run the joined
    arguments, and always answer with text.
   */
  method RunCommandInTerminal(terminal: PexpectTerminal, workingDirectory: string, commandLineArgs: seq<string>,
                              spawnError: Option<string>, polls: seq<Event>, reply: Event) returns (r: string)
    modifies terminal
    ensures old(terminal.child) == Child(true) ==>
      r == Response(JoinArgs(commandLineArgs), polls, reply) && terminal.child == Child(true)
      && terminal.sent == old(terminal.sent) + CommandLines(JoinArgs(commandLineArgs), polls)
    ensures old(terminal.child) != Child(true) && spawnError.Some? ==>
      r == "Error: " + spawnError.value && terminal.child == old(terminal.child) && terminal.sent == old(terminal.sent)
    ensures old(terminal.child) != Child(true) && spawnError.None? ==>
      r == Response(JoinArgs(commandLineArgs), polls, reply) && terminal.child == Child(true)
      && terminal.sent == OpenLines(workingDirectory) + CommandLines(JoinArgs(commandLineArgs), polls)
  {
    var alive := terminal.IsAlive();
    if !alive {
      var err := terminal.Open(workingDirectory, spawnError);
      if err.Some? {
        return "Error: " + err.value;
      }
    }
    var command := JoinArgs(commandLineArgs);
    var result := terminal.RunCommand(command, DEFAULT_TIMEOUT, polls, reply);
    r := FormatResponse(result);
  }
}
