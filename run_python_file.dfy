/**
  `run_python_file`: run a Python script inside the working directory and
  report how it went.  The interpreter is not modelled: the caller supplies
  `spawn`, which maps the invocation asked for to what the process did.
 */
module RunPythonFile {
  import opened Wrappers
  import opened Strings
  import opened Paths
  import opened FileSystem
  import GetFileContent

  /** The seconds `subprocess.run` waits before giving up. */
  const TIMEOUT: nat := 30

  /** What `subprocess.run` is asked to do. */
  datatype Invocation = Invocation(argv: seq<string>, cwd: string, timeout: nat)

  /** How the process ended: with a return code and captured text, or with an exception from `subprocess.run`. */
  datatype ProcessOutcome = Completed(returncode: int, stdout: string, stderr: string) | Raised(message: string)

  function OutsideMessage(filePath: string): string {
    "Cannot execute \"" + filePath + "\" as it is outside the permitted working directory"
  }

  function NotRegularMessage(filePath: string): string {
    "\"" + filePath + "\" does not exist or is not a regular file"
  }

  function NotPythonMessage(filePath: string): string {
    "\"" + filePath + "\" is not a Python file"
  }

  /**
    The three checks in order: containment, then an existing regular file,
    then a base name ending in `.py`.  On success, the absolute path to run.
   */
  function Validate(fs: Fs, cwd: string, workingDirectory: string, filePath: string): Result<string, string>
    requires IsAbs(cwd)
  {
    var absWd := Abspath(cwd, workingDirectory);
    AbspathIsNormal(cwd, workingDirectory);
    var target := GetFileContent.Target(cwd, absWd, filePath);
    GetFileContent.TargetIsResolve(cwd, absWd, filePath);
    if !Permitted(absWd, target) then Failure(OutsideMessage(filePath))
    else if !(Exists(fs, target) && IsFile(fs, target)) then Failure(NotRegularMessage(filePath))
    else if !EndsWith(SplitPath(target).1, ".py") then Failure(NotPythonMessage(filePath))
    else Success(target)
  }

  /** `["python", abs_file_path] + (args or [])`. */
  function Argv(target: string, args: Option<seq<string>>): (argv: seq<string>)
    ensures |argv| >= 2 && argv[0] == "python" && argv[1] == target
    ensures argv[2..] == if args.Some? then args.value else []
  {
    ["python", target] + if args.Some? then args.value else []
  }

  /** The lines `execution_output` collects for a finished process. */
  function OutputLines(returncode: int, stdout: string, stderr: string): seq<string> {
    if returncode != 0 then ["Process exited with code " + IntToString(returncode)]
    else
      (if stdout != "" then ["STDOUT: " + stdout] else [])
      + (if stderr != "" then ["STDERR: " + stderr] else [])
      + (if stdout == "" && stderr == "" then ["No output produced"] else [])
  }

  /**
    `"\n".join(execution_output)`: a failing return code alone, or the
    captured streams that are not empty, or a note that there were none.
   */
  function Report(returncode: int, stdout: string, stderr: string): (r: string)
    ensures returncode != 0 ==> r == "Process exited with code " + IntToString(returncode)
    ensures returncode == 0 && stdout == "" && stderr == "" ==> r == "No output produced"
    ensures returncode == 0 && stdout != "" && stderr == "" ==> r == "STDOUT: " + stdout
    ensures returncode == 0 && stdout == "" && stderr != "" ==> r == "STDERR: " + stderr
    ensures returncode == 0 && stdout != "" && stderr != "" ==> r == "STDOUT: " + stdout + "\n" + "STDERR: " + stderr
  {
    var lines := OutputLines(returncode, stdout, stderr);
    assert returncode == 0 && stdout != "" && stderr != "" ==> lines == ["STDOUT: " + stdout] + ["STDERR: " + stderr];
    JoinSnoc(["STDOUT: " + stdout], "STDERR: " + stderr, '\n');
    Join(lines, '\n')
  }

  /** Builds `execution_output` by appends and joins it. */
  method ExecutionOutput(returncode: int, stdout: string, stderr: string) returns (r: string)
    ensures r == Report(returncode, stdout, stderr)
  {
    var output: seq<string> := [];
    if returncode != 0 {
      output := output + ["Process exited with code " + IntToString(returncode)];
    } else {
      if stdout != "" {
        output := output + ["STDOUT: " + stdout];
      }
      if stderr != "" {
        output := output + ["STDERR: " + stderr];
      }
      if stderr == "" && stdout == "" {
        output := output + ["No output produced"];
      }
    }
    assert output == OutputLines(returncode, stdout, stderr);
    r := Join(output, '\n');
  }

  /**
    `run_python_file(working_directory, file_path, args)`.  A failed check
    or an exception is reported as `Error: ` and its message; the process
    is started only when every check passes.
   */
  method Run(fs: Fs, cwd: string, workingDirectory: string, filePath: string, args: Option<seq<string>>,
             spawn: Invocation -> ProcessOutcome) returns (r: string)
    requires IsAbs(cwd)
    ensures match Validate(fs, cwd, workingDirectory, filePath)
      case Failure(e) => r == "Error: " + e
      case Success(target) =>
        match spawn(Invocation(Argv(target, args), workingDirectory, TIMEOUT))
        case Raised(m) => r == "Error: " + m
        case Completed(code, out, err) => r == Report(code, out, err)
  {
    var checked := Validate(fs, cwd, workingDirectory, filePath);
    if checked.Failure? {
      return "Error: " + checked.error;
    }
    var outcome := spawn(Invocation(Argv(checked.value, args), workingDirectory, TIMEOUT));
    if outcome.Raised? {
      return "Error: " + outcome.message;
    }
    r := ExecutionOutput(outcome.returncode, outcome.stdout, outcome.stderr);
  }

  /**
    The first failing check decides the message: containment, then a
    regular file, then the `.py` suffix of the last component.
   */
  lemma CheckOrder(fs: Fs, cwd: string, workingDirectory: string, filePath: string)
    requires IsAbs(cwd) && WellFormed(fs)
    requires InitialSlashes(Abspath(cwd, workingDirectory)) == 1
    ensures var absWd := Abspath(cwd, workingDirectory); var target := Resolve(absWd, filePath);
      var key := Components(target);
      Validate(fs, cwd, workingDirectory, filePath)
      == if !(Components(absWd) <= key) then Failure(OutsideMessage(filePath))
         else if !(key in fs && fs[key].File?) then Failure(NotRegularMessage(filePath))
         else if !EndsWith(key[|key| - 1], ".py") then Failure(NotPythonMessage(filePath))
         else Success(target)
  {
    var absWd := Abspath(cwd, workingDirectory);
    var target := Resolve(absWd, filePath);
    var key := Components(target);
    ValidateResolved(fs, cwd, workingDirectory, filePath);
    AbspathIsNormal(cwd, workingDirectory);
    ResolveIsNormal(absWd, filePath);
    PermittedIffPrefix(absWd, target);
    if key in fs && fs[key].File? {
      BaseName(target);
    }
  }

  /** `Validate` in terms of the resolved path. */
  lemma ValidateResolved(fs: Fs, cwd: string, workingDirectory: string, filePath: string)
    requires IsAbs(cwd)
    ensures var absWd := Abspath(cwd, workingDirectory); var target := Resolve(absWd, filePath);
      IsAbs(absWd) && IsAbs(target)
      && Validate(fs, cwd, workingDirectory, filePath)
      == if !Permitted(absWd, target) then Failure(OutsideMessage(filePath))
         else if !IsFile(fs, target) then Failure(NotRegularMessage(filePath))
         else if !EndsWith(SplitPath(target).1, ".py") then Failure(NotPythonMessage(filePath))
         else Success(target)
  {
    var absWd := Abspath(cwd, workingDirectory);
    AbspathIsNormal(cwd, workingDirectory);
    GetFileContent.TargetIsResolve(cwd, absWd, filePath);
  }

  /** The name `os.path.split` gives a normal path below the root is its last component. */
  lemma BaseName(target: string)
    requires IsNormalAbs(target) && Components(target) != []
    ensures SplitPath(target).1 == Components(target)[|Components(target)| - 1]
  {
    SplitPathOfNormal(target);
  }

  /** A working directory spelled with two leading slashes lets nothing run. */
  lemma RunFromDoubleSlashWorkdir(fs: Fs, cwd: string, workingDirectory: string, filePath: string)
    requires IsAbs(cwd)
    requires InitialSlashes(Abspath(cwd, workingDirectory)) == 2
    ensures Validate(fs, cwd, workingDirectory, filePath) == Failure(OutsideMessage(filePath))
  {
    var absWd := Abspath(cwd, workingDirectory);
    AbspathIsNormal(cwd, workingDirectory);
    GetFileContent.TargetIsResolve(cwd, absWd, filePath);
    DoubleSlashWorkdirPermitsNothing(absWd, Resolve(absWd, filePath));
  }

  /** A script that passes the checks is run from the resolved absolute path, which lies inside the working directory. */
  lemma ValidTarget(fs: Fs, cwd: string, workingDirectory: string, filePath: string)
    requires IsAbs(cwd) && Validate(fs, cwd, workingDirectory, filePath).Success?
    ensures var absWd := Abspath(cwd, workingDirectory); var target := Validate(fs, cwd, workingDirectory, filePath).value;
      target == Resolve(absWd, filePath) && IsNormalAbs(target)
      && InitialSlashes(absWd) == 1 && Components(absWd) <= Components(target)
      && IsFile(fs, target)
  {
    var absWd := Abspath(cwd, workingDirectory);
    AbspathIsNormal(cwd, workingDirectory);
    var target := Resolve(absWd, filePath);
    GetFileContent.TargetIsResolve(cwd, absWd, filePath);
    if InitialSlashes(absWd) == 2 {
      DoubleSlashWorkdirPermitsNothing(absWd, target);
    }
    PermittedIffPrefix(absWd, target);
  }
}
