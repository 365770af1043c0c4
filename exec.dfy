// Running parsed commands (exec.c): builtins, external programs, `>` and `|`
// redirection, and the sequential and parallel drivers.
//
// The operating system is not modelled: every system call whose answer matters
// to the shell's control flow (pipe, fork, chdir, open, dup2, close, getcwd,
// execvp and the child's exit code) is an oracle value handed in as a
// parameter.  A `World` holds the answers for one call of exec_cmd, a
// `ChildEnv` the answers a forked child process gets.
module Exec {
  import opened CString

  const EXIT_BYE := 10
  const EXIT_ON_FAILURE := 11

  /** The builtin command names: "cd", "echo", "pwd", "bye". */
  const CMD_CD: seq<Char> := [99, 100]
  const CMD_ECHO: seq<Char> := [101, 99, 104, 111]
  const CMD_PWD: seq<Char> := [112, 119, 100]
  const CMD_QUIT: seq<Char> := [98, 121, 101]

  /** What a parent sees of a child's exit: WEXITSTATUS, the low 8 bits of its exit code. */
  type ExitCode = c: int | 0 <= c < 256

  /** What chdir(2) returns. */
  type ChdirResult = r: int | r == 0 || r == -1

  /** A process id fork(2) hands to the parent of a new child. */
  type Pid = p: int | p > 0 witness 1

  /**
   * One parsed command: its argument vector (argv[0] is the command, the
   * vector is NULL-terminated in C, so `argv[k]` is NULL exactly when
   * k >= |argv|), its redirection type (NUL, '>' or '|') and the argument
   * vector of the redirection target.
   */
  datatype Command = Command(argv: seq<seq<Char>>, redir: Char, target: seq<seq<Char>>)

  /** The shell goes on with a result, or (after a child exited with EXIT_BYE) the shell exits. */
  datatype Outcome = Done(res: int) | Bye

  /** The directory a `cd` asks for: $HOME when it has no argument. */
  datatype ChdirTarget = Home | Dir(path: seq<Char>)

  /** The answers a forked child gets from the system. */
  datatype ChildEnv = ChildEnv(
    opens: seq<Char> -> bool,         // open(path, O_WRONLY|O_CREAT|O_TRUNC) and dup2 onto stdout succeed
    dupOut: int,                      // dup2(pipefd[1], STDOUT_FILENO)
    closeOut: bool,                   // close(pipefd[1]) succeeds
    closeIn: bool,                    // close(pipefd[0]) succeeds
    cwdOk: bool,                      // getcwd succeeds
    program: Option<ExitCode>)        // execvp: None if it fails, else the program's exit code

  /** fork(2) from the parent's side: it fails, or a child runs in `env`. */
  datatype Fork = ForkFailed | Forked(env: ChildEnv)

  /** The answers the system gives the shell process during one exec_cmd. */
  datatype World = World(
    pipeSetup: int,                      // setup_pipe_parent: pipe() and the dup()s of the saved descriptors
    chdir: ChdirTarget -> ChdirResult,   // chdir for the first command
    fork: Fork,                          // fork for the first command
    closePipe: int,                      // close_pipe_parent: dup2 of the read end and the closes
    chdir2: ChdirTarget -> ChdirResult,  // chdir for the command after `|`
    fork2: Fork,                         // fork for the command after `|`
    restore: int)                        // restore_stdio

  /** argv[k], or NULL. */
  function Arg(argv: seq<seq<Char>>, k: nat): (a: Option<seq<Char>>)
    ensures a.Some? <==> k < |argv|
    ensures a.Some? ==> a.value == argv[k]
  {
    if k < |argv| then Some(argv[k]) else None
  }

  /** The parent's reading of a reaped child's exit code. */
  function ExitStatus(code: ExitCode): (o: Outcome)
    ensures o == Bye <==> code == EXIT_BYE
    ensures o == Done(-1) <==> code == EXIT_ON_FAILURE
    ensures o.Done? ==> o.res == 0 || o.res == -1
  {
    if code == EXIT_ON_FAILURE then Done(-1)
    else if code == EXIT_BYE then Bye
    else Done(0)
  }

  /** A program that exits with 1 (or any code but 10 and 11) counts as a success. */
  lemma ExitOneIsSuccess()
    ensures ExitStatus(1) == Done(0) && ExitStatus(0) == Done(0)
  {
  }

  function IsBuiltin(cmd: Option<seq<Char>>): (b: bool)
    ensures b <==> cmd.Some? && cmd.value in {CMD_CD, CMD_ECHO, CMD_PWD, CMD_QUIT}
  {
    match cmd
    case None => false
    case Some(c) => c == CMD_CD || c == CMD_ECHO || c == CMD_PWD || c == CMD_QUIT
  }

  // ---------------------------------------------------------------------
  // Redirection inside the child

  /** redir_pipe: the result of dup2, or -1 as soon as the dup2 or either close fails. */
  function RedirPipe(env: ChildEnv): (r: int)
    ensures r < 0 <==> env.dupOut < 0 || !env.closeOut || !env.closeIn
    ensures r >= 0 ==> r == env.dupOut
  {
    var success := if env.dupOut < 0 then -1 else env.dupOut;
    var success := if !env.closeOut then -1 else success;
    if !env.closeIn then -1 else success
  }

  /**
   * setup_redir: a file for '>' (named by the target's first word; open(NULL)
   * fails), the pipe's write end for '|', nothing for NUL, and -1 for any
   * other type.
   */
  function SetupRedir(kind: Char, target: seq<seq<Char>>, env: ChildEnv): (r: int)
    ensures kind == NUL ==> r == 0
    ensures kind != NUL && kind != GT && kind != PIPE ==> r == -1
    ensures kind == GT ==> (r == 0 <==> target != [] && env.opens(target[0]))
    ensures kind == GT ==> r == 0 || r == -1
    ensures kind == PIPE ==> r == RedirPipe(env)
  {
    if kind == GT then
      (if target != [] && env.opens(target[0]) then 0 else -1)
    else if kind == PIPE then RedirPipe(env)
    else if kind == NUL then 0
    else -1
  }

  // ---------------------------------------------------------------------
  // Builtins

  /**
   * The `success` value builtin() computes before it exits: EXIT_BYE for a
   * plain `bye`, -1 on a misuse or failure, 0 otherwise.
   */
  function BuiltinSuccess(argv: seq<seq<Char>>, redir: Char, cwdOk: bool): int
    requires argv != []
  {
    var cmd := argv[0];
    if cmd == CMD_QUIT then
      (if |argv| > 1 then -1 else if redir != NUL then -1 else EXIT_BYE)
    else if cmd == CMD_ECHO then 0
    else if cmd == CMD_PWD then
      (if |argv| > 1 then -1 else if !cwdOk then -1 else 0)
    else -1   // "cd" must not reach the child, and anything else is not a builtin
  }

  /** The code a child running builtin() exits with. */
  function BuiltinExit(argv: seq<seq<Char>>, redir: Char, cwdOk: bool): (code: ExitCode)
    requires argv != []
    ensures code == 0 || code == EXIT_BYE || code == EXIT_ON_FAILURE
  {
    var success := BuiltinSuccess(argv, redir, cwdOk);
    if success == EXIT_BYE then EXIT_BYE
    else if success < 0 then EXIT_ON_FAILURE
    else 0
  }

  /** What each builtin reports, both ways round. */
  lemma BuiltinExitCases(argv: seq<seq<Char>>, redir: Char, cwdOk: bool)
    requires argv != []
    ensures BuiltinExit(argv, redir, cwdOk) == EXIT_BYE <==>
              argv[0] == CMD_QUIT && |argv| == 1 && redir == NUL
    ensures BuiltinExit(argv, redir, cwdOk) == 0 <==>
              argv[0] == CMD_ECHO || (argv[0] == CMD_PWD && |argv| == 1 && cwdOk)
    ensures argv[0] == CMD_CD || !IsBuiltin(Some(argv[0])) ==>
              BuiltinExit(argv, redir, cwdOk) == EXIT_ON_FAILURE
  {
  }

  /** The directory a `cd` with at most one argument changes to. */
  function ChdirTo(argv: seq<seq<Char>>): (t: ChdirTarget)
    ensures t == Home <==> |argv| < 2
    ensures t.Dir? ==> t.path == argv[1]
  {
    if |argv| < 2 then Home else Dir(argv[1])
  }

  /**
   * builtin_chdir: 1 when the command is not "cd", -1 for a `cd` with more
   * than one argument (chdir is not called), else what chdir answers.
   */
  function BuiltinChdir(cmd: seq<Char>, argv: seq<seq<Char>>, chdir: ChdirTarget -> ChdirResult): (r: int)
    ensures cmd != CMD_CD <==> r == 1
    ensures cmd == CMD_CD && |argv| > 2 ==> r == -1
    ensures cmd == CMD_CD && |argv| <= 2 ==> r == chdir(ChdirTo(argv))
  {
    if cmd != CMD_CD then 1
    else if |argv| > 2 then -1
    else chdir(ChdirTo(argv))
  }

  /** A `cd` with too many arguments fails whatever the file system says. */
  lemma CdTooManyArgs(argv: seq<seq<Char>>, c1: ChdirTarget -> ChdirResult, c2: ChdirTarget -> ChdirResult)
    requires |argv| > 2 && argv[0] == CMD_CD
    ensures BuiltinChdir(argv[0], argv, c1) == BuiltinChdir(argv[0], argv, c2) == -1
  {
  }

  // ---------------------------------------------------------------------
  // One command

  /**
   * The exit code of a child forked for `cmd`: EXIT_ON_FAILURE when the
   * redirection cannot be set up, else builtin()'s code for a builtin, else
   * the program's code, or EXIT_ON_FAILURE when execvp fails.  execvp on a
   * NULL command (a `|` whose target holds no word) is undefined in C; its
   * outcome is left to the same oracle answer as any other execvp.
   */
  function ChildExit(cmd: Option<seq<Char>>, argv: seq<seq<Char>>, redir: Char, target: seq<seq<Char>>,
                     env: ChildEnv): (code: ExitCode)
    requires cmd.Some? ==> argv != [] && argv[0] == cmd.value
  {
    if SetupRedir(redir, target, env) < 0 then EXIT_ON_FAILURE
    else if IsBuiltin(cmd) then BuiltinExit(argv, redir, env.cwdOk)
    else if env.program.None? then EXIT_ON_FAILURE
    else env.program.value
  }

  /** The parent's side of a fork: -1 when fork fails, else the reading of the child's exit code. */
  function Reap(f: Fork, cmd: Option<seq<Char>>, argv: seq<seq<Char>>, redir: Char,
                target: seq<seq<Char>>): (o: Outcome)
    requires cmd.Some? ==> argv != [] && argv[0] == cmd.value
    ensures f.ForkFailed? ==> o == Done(-1)
    ensures f.Forked? ==> o == ExitStatus(ChildExit(cmd, argv, redir, target, f.env))
  {
    match f
    case ForkFailed => Done(-1)
    case Forked(env) => ExitStatus(ChildExit(cmd, argv, redir, target, env))
  }

  /**
   * exec_builtin for a builtin, exec_extern otherwise.  A builtin first goes
   * through builtin_chdir in the shell itself: a `cd` ends there with
   * chdir's result and never forks.
   */
  function Launch(cmd: Option<seq<Char>>, argv: seq<seq<Char>>, redir: Char, target: seq<seq<Char>>,
                  chdir: ChdirTarget -> ChdirResult, f: Fork): (o: Outcome)
    requires cmd.Some? ==> argv != [] && argv[0] == cmd.value
  {
    if IsBuiltin(cmd) && BuiltinChdir(cmd.value, argv, chdir) <= 0 then
      Done(BuiltinChdir(cmd.value, argv, chdir))
    else Reap(f, cmd, argv, redir, target)
  }

  /**
   * exec_cmd: nothing for an empty command; otherwise run it, and for `|`
   * run the command named by the target with the pipe's read end as its
   * input, then restore the shell's descriptors.
   */
  function ExecCmd(c: Command, w: World): Outcome
  {
    if c.argv == [] then Done(0)
    else if c.redir == PIPE && w.pipeSetup < 0 then Done(-1)
    else
      var first := Launch(Some(c.argv[0]), c.argv, c.redir, c.target, w.chdir, w.fork);
      if first.Bye? || first.res < 0 || c.redir != PIPE then first
      else if w.closePipe < 0 then Done(w.closePipe)
      else
        var second := Launch(Arg(c.target, 0), c.target, NUL, [], w.chdir2, w.fork2);
        if second.Bye? then Bye
        else if w.restore < 0 then Done(-1)
        else second
  }

  /** An empty command does nothing: no system call is made and the result is 0. */
  lemma EmptyCommandDoesNothing(redir: Char, target: seq<seq<Char>>, w1: World, w2: World)
    ensures ExecCmd(Command([], redir, target), w1) == ExecCmd(Command([], redir, target), w2) == Done(0)
  {
  }

  /** exec_cmd reports success as 0 and failure as a negative number. */
  lemma {:induction false} ExecCmdResult(c: Command, w: World)
    ensures ExecCmd(c, w).Done? ==> ExecCmd(c, w).res <= 0
  {
    if c.argv != [] && !(c.redir == PIPE && w.pipeSetup < 0) {
      var first := Launch(Some(c.argv[0]), c.argv, c.redir, c.target, w.chdir, w.fork);
      assert first.Done? ==> first.res <= 0;
      if first.Done? && first.res >= 0 && c.redir == PIPE && w.closePipe >= 0 {
        var second := Launch(Arg(c.target, 0), c.target, NUL, [], w.chdir2, w.fork2);
        assert second.Done? ==> second.res <= 0;
      }
    }
  }

  /** `cd` (without `|`) runs in the shell itself: the result is chdir's, and nothing is forked. */
  lemma {:induction false} CdRunsInShell(c: Command, w: World, f: Fork)
    requires c.argv != [] && c.argv[0] == CMD_CD && c.redir != PIPE
    ensures ExecCmd(c, w) == ExecCmd(c, w.(fork := f)) == Done(BuiltinChdir(CMD_CD, c.argv, w.chdir))
    ensures |c.argv| > 2 ==> ExecCmd(c, w) == Done(-1)
  {
    assert BuiltinChdir(CMD_CD, c.argv, w.chdir) <= 0;
  }

  /**
   * Without `|`, the shell exits exactly when the forked child exits with
   * EXIT_BYE, and for a builtin that is exactly a plain `bye`.
   */
  lemma {:induction false} ByeExits(c: Command, w: World)
    requires c.argv != [] && c.redir != PIPE
    ensures ExecCmd(c, w) == Bye <==>
              c.argv[0] != CMD_CD && w.fork.Forked? &&
              ChildExit(Some(c.argv[0]), c.argv, c.redir, c.target, w.fork.env) == EXIT_BYE
    ensures IsBuiltin(Some(c.argv[0])) && c.redir != GT ==>
              (ExecCmd(c, w) == Bye <==>
                 w.fork.Forked? && c.argv[0] == CMD_QUIT && |c.argv| == 1 && c.redir == NUL)
  {
    var cmd := c.argv[0];
    if IsBuiltin(Some(cmd)) && c.redir != GT && w.fork.Forked? {
      BuiltinExitCases(c.argv, c.redir, w.fork.env.cwdOk);
      if c.redir != NUL {
        assert SetupRedir(c.redir, c.target, w.fork.env) == -1;
      }
    }
  }

  /**
   * With `|`, a failure of the first command (or of the pipe) is the result,
   * and the command after the pipe is not started.
   */
  lemma {:induction false} PipeStopsOnFailure(c: Command, w: World, chdir2: ChdirTarget -> ChdirResult, f2: Fork)
    requires c.argv != [] && c.redir == PIPE
    requires w.pipeSetup < 0 ||
             Launch(Some(c.argv[0]), c.argv, c.redir, c.target, w.chdir, w.fork) == Done(-1)
    ensures ExecCmd(c, w) == ExecCmd(c, w.(chdir2 := chdir2, fork2 := f2)) == Done(-1)
  {
  }

  // ---------------------------------------------------------------------
  // exec_cmds_seq

  /** The outcome each command would have, run on its own world. */
  function Outcomes(cmds: seq<Command>, ws: seq<World>): (os: seq<Outcome>)
    requires |ws| == |cmds|
    ensures |os| == |cmds| && forall i :: 0 <= i < |cmds| ==> os[i] == ExecCmd(cmds[i], ws[i])
  {
    seq(|cmds|, i requires 0 <= i < |cmds| => ExecCmd(cmds[i], ws[i]))
  }

  /** exec_cmds_seq's bookkeeping over the first `n` outcomes: a `Bye` ends
      everything, a failure replaces the result, a success leaves it. */
  function SeqFold(os: seq<Outcome>, n: nat): Outcome
    requires n <= |os|
  {
    if n == 0 then Done(0)
    else
      var before := SeqFold(os, n - 1);
      var o := os[n - 1];
      if before.Bye? || o.Bye? then Bye
      else if o.res < 0 then o
      else before
  }

  /** The result of running the first `n` commands one after the other. */
  function SeqRun(cmds: seq<Command>, ws: seq<World>, n: nat): Outcome
    requires n <= |cmds| == |ws|
  {
    SeqFold(Outcomes(cmds, ws), n)
  }

  /**
   * exec_cmds_seq: every command runs, in order, whatever the earlier ones
   * returned; the result is the last failure, or 0.
   */
  method ExecCmdsSeq(cmds: seq<Command>, ws: seq<World>) returns (o: Outcome)
    requires |ws| == |cmds|
    ensures o == SeqRun(cmds, ws, |cmds|)
  {
    ghost var os := Outcomes(cmds, ws);
    var res := 0;
    var i := 0;
    while i < |cmds|
      invariant 0 <= i <= |cmds|
      invariant SeqFold(os, i) == Done(res)
    {
      var success := ExecCmd(cmds[i], ws[i]);
      if success.Bye? {
        // exit_status has ended the shell process
        BeyondBye(os, i + 1, |os|);
        return Bye;
      }
      if success.res < 0 {
        res := success.res;
      }
      i := i + 1;
    }
    o := Done(res);
  }

  /** Once some command has ended the shell, nothing later changes that. */
  lemma {:induction false} BeyondBye(os: seq<Outcome>, k: nat, n: nat)
    requires k <= n <= |os|
    requires SeqFold(os, k) == Bye
    ensures SeqFold(os, n) == Bye
    decreases n - k
  {
    if k < n {
      BeyondBye(os, k + 1, n);
    }
  }

  /**
   * The sequential bookkeeping stated without the fold: it ends in `Bye` iff
   * some outcome is `Bye`; otherwise the result is 0 and no outcome failed,
   * or it is the failure of the last outcome that failed.
   */
  lemma {:induction false} FoldMeaning(os: seq<Outcome>, n: nat)
    requires n <= |os|
    ensures SeqFold(os, n) == Bye <==> exists i :: 0 <= i < n && os[i] == Bye
    ensures SeqFold(os, n).Done? ==>
              var r := SeqFold(os, n).res;
              (r == 0 && forall i :: 0 <= i < n ==> os[i].res >= 0) ||
              (r < 0 && exists i :: (0 <= i < n && os[i] == Done(r) &&
                                     forall j :: i < j < n ==> os[j].res >= 0))
  {
    if n > 0 {
      FoldMeaning(os, n - 1);
      var o := os[n - 1];
      if SeqFold(os, n).Done? && o.res < 0 {
        assert os[n - 1] == Done(SeqFold(os, n).res);
      }
    }
  }

  /**
   * The sequential result, stated without the fold: the shell exits iff some
   * command says so; otherwise the result is negative iff some command
   * failed, and then it is the failure of the last command that failed.
   */
  lemma SeqRunMeaning(cmds: seq<Command>, ws: seq<World>, n: nat)
    requires n <= |cmds| == |ws|
    ensures SeqRun(cmds, ws, n) == Bye <==> exists i :: 0 <= i < n && ExecCmd(cmds[i], ws[i]) == Bye
    ensures SeqRun(cmds, ws, n).Done? ==>
              var r := SeqRun(cmds, ws, n).res;
              (r == 0 && forall i :: 0 <= i < n ==> ExecCmd(cmds[i], ws[i]).res >= 0) ||
              (r < 0 && exists i :: (0 <= i < n && ExecCmd(cmds[i], ws[i]) == Done(r) &&
                                     forall j :: i < j < n ==> ExecCmd(cmds[j], ws[j]).res >= 0))
  {
    FoldMeaning(Outcomes(cmds, ws), n);
  }

  // ---------------------------------------------------------------------
  // exec_cmds_par

  /** The answers the shell gets while launching one command of a `&` line. */
  datatype ParWorld = ParWorld(
    chdir: ChdirTarget -> ChdirResult,   // chdir, for a `cd`
    fork: Fork,                          // the fork of the clause's process
    pid: Pid,                            // the child's process id
    inner: World)                        // what that child's own exec_cmd sees, for `|`

  /**
   * What launching one clause left in pids[]: a `cd` run by the shell
   * (pids[i] is chdir's result), a failed fork (pids[i] is -1), or a child
   * that will exit with `code`.  `Skipped` is an empty clause, which only
   * the corrected launch has.
   */
  datatype Slot = InShell(chdir: int) | NoFork | Child(pid: Pid, code: ExitCode) | Skipped

  /** The value pids[i] holds for a slot. */
  function PidOf(s: Slot): (p: int)
    ensures p > 0 <==> s.Child?
  {
    match s
    case InShell(r) => if r <= 0 then r else 0
    case NoFork => -1
    case Child(pid, _) => pid
    case Skipped => 0
  }

  /**
   * The exit code of a child forked for a `&` clause: for `|` the child runs
   * exec_cmd itself and exits EXIT_ON_FAILURE on a negative result, else
   * success (its own exit_status turns a `bye` into success too); otherwise
   * the child sets up the redirection and becomes the command.
   */
  function ParChildExit(c: Command, w: ParWorld, env: ChildEnv): (code: ExitCode)
    requires c.argv != []
    ensures code == EXIT_BYE ==> c.redir != PIPE
  {
    if c.redir == PIPE then
      (match ExecCmd(c, w.inner)
       case Bye => 0
       case Done(r) => if r < 0 then EXIT_ON_FAILURE else 0)
    else ChildExit(Some(c.argv[0]), c.argv, c.redir, c.target, env)
  }

  /** The launch of a non-empty clause, as exec_cmds_par's first loop does it. */
  function LaunchClause(c: Command, w: ParWorld): (s: Slot)
    requires c.argv != []
    ensures s != Skipped
    ensures c.argv[0] == CMD_CD <==> s.InShell?
  {
    var chdir := BuiltinChdir(c.argv[0], c.argv, w.chdir);
    if chdir <= 0 then InShell(chdir)
    else match w.fork
      case ForkFailed => NoFork
      case Forked(env) => Child(w.pid, ParChildExit(c, w, env))
  }

  /**
   * exec_cmds_par as written reads argv[0] of every clause and hands it to
   * builtin_chdir, whose strcmp has undefined behaviour on NULL: None marks
   * that an empty clause makes the launch undefined.
   */
  function LaunchAsWritten(c: Command, w: ParWorld): (s: Option<Slot>)
    ensures s.None? <==> c.argv == []
  {
    if c.argv == [] then None else Some(LaunchClause(c, w))
  }

  /** The corrected launch: an empty clause does nothing, as exec_cmd does for it. */
  function Launched(c: Command, w: ParWorld): (s: Slot)
    ensures s == Skipped <==> c.argv == []
    ensures c.argv != [] ==> Some(s) == LaunchAsWritten(c, w)
  {
    if c.argv == [] then Skipped else LaunchClause(c, w)
  }

  /** The slots of all clauses. */
  function Slots(cmds: seq<Command>, ws: seq<ParWorld>): (ss: seq<Slot>)
    requires |ws| == |cmds|
    ensures |ss| == |cmds| && forall i :: 0 <= i < |cmds| ==> ss[i] == Launched(cmds[i], ws[i])
  {
    seq(|cmds|, i requires 0 <= i < |cmds| => Launched(cmds[i], ws[i]))
  }

  /**
   * The wait loop over the first `n` slots, starting from `res` (-1 when a
   * fork failed during launch): each child is reaped and read with
   * exit_status; other slots are passed over.
   */
  function WaitRun(ss: seq<Slot>, n: nat, res: int): Outcome
    requires n <= |ss|
  {
    if n == 0 then Done(res)
    else
      var before := WaitRun(ss, n - 1, res);
      if before.Bye? then Bye
      else if !ss[n - 1].Child? then before
      else
        var o := ExitStatus(ss[n - 1].code);
        if o.Bye? then Bye
        else if o.res == -1 then Done(-1)
        else before
  }

  /** The launch loop's result: -1 once a fork has failed. */
  function LaunchRes(ss: seq<Slot>, n: nat): (r: int)
    requires n <= |ss|
    ensures r == -1 <==> exists i :: 0 <= i < n && ss[i] == NoFork
    ensures r == 0 || r == -1
  {
    if n == 0 then 0
    else if ss[n - 1] == NoFork then -1
    else LaunchRes(ss, n - 1)
  }

  /** The result of exec_cmds_par (with the corrected launch) for given slots. */
  function ParOutcome(ss: seq<Slot>): Outcome
  {
    WaitRun(ss, |ss|, LaunchRes(ss, |ss|))
  }

  /**
   * exec_cmds_par, with the corrected launch: start every clause without
   * waiting (a `cd` runs in the shell itself), then reap one child for each
   * slot that holds a process id.  `pids` is what the pids[] array holds.
   */
  method ExecCmdsPar(cmds: seq<Command>, ws: seq<ParWorld>) returns (o: Outcome, pids: seq<int>)
    requires |ws| == |cmds|
    ensures o == ParOutcome(Slots(cmds, ws))
    ensures |pids| == |cmds| && forall i :: 0 <= i < |cmds| ==> pids[i] == PidOf(Launched(cmds[i], ws[i]))
  {
    ghost var ss := Slots(cmds, ws);
    var n := |cmds|;
    var res := 0;
    var slots := new int[n];
    var codes: seq<ExitCode> := [];   // the status each child will report to wait()
    var i := 0;
    while i < n
      invariant 0 <= i <= n
      invariant res == LaunchRes(ss, i)
      invariant forall k :: 0 <= k < i ==> slots[k] == PidOf(ss[k])
      invariant |codes| == i && forall k :: 0 <= k < i && ss[k].Child? ==> codes[k] == ss[k].code
    {
      var pid, code, forkFailed := LaunchOne(cmds[i], ws[i]);
      assert ss[i] == Launched(cmds[i], ws[i]);
      assert LaunchRes(ss, i + 1) == if forkFailed then -1 else res;
      slots[i] := pid;
      codes := codes + [code];
      if forkFailed {
        res := -1;
      }
      i := i + 1;
    }
    o := WaitAll(slots[..], codes, ss, res);
    pids := slots[..];
  }

  /**
   * exec_cmds_par's wait loop: one wait() for each slot holding a process
   * id; a child that exits with EXIT_ON_FAILURE makes the result -1, one that
   * exits with EXIT_BYE ends the shell.
   */
  method WaitAll(pids: seq<int>, codes: seq<ExitCode>, ghost ss: seq<Slot>, res: int) returns (o: Outcome)
    requires |pids| == |codes| == |ss|
    requires forall k :: 0 <= k < |ss| ==> pids[k] == PidOf(ss[k])
    requires forall k :: 0 <= k < |ss| && ss[k].Child? ==> codes[k] == ss[k].code
    ensures o == WaitRun(ss, |ss|, res)
  {
    var n := |pids|;
    var status := Done(res);
    var i := 0;
    while i < n
      invariant 0 <= i <= n
      invariant status == WaitRun(ss, i, res)
      invariant status.Done?
    {
      assert pids[i] > 0 <==> ss[i].Child?;
      if pids[i] > 0 {
        var success := ExitStatus(codes[i]);
        if success.Bye? {
          // exit_status has ended the shell process
          WaitBeyondBye(ss, i + 1, n, res);
          return Bye;
        }
        if success.res == -1 {
          status := Done(-1);
        }
      }
      i := i + 1;
    }
    o := status;
  }

  /**
   * One round of exec_cmds_par's launch loop: an empty clause is skipped, a
   * `cd` runs in the shell and its result goes in pids[i], anything else is
   * forked; the child's exit code is what wait() will later report.
   */
  method LaunchOne(c: Command, w: ParWorld) returns (pid: int, code: ExitCode, forkFailed: bool)
    ensures pid == PidOf(Launched(c, w))
    ensures forkFailed <==> Launched(c, w) == NoFork
    ensures Launched(c, w).Child? ==> code == Launched(c, w).code
  {
    code, forkFailed := 0, false;
    if c.argv == [] {
      return 0, code, forkFailed;
    }
    var chdir := BuiltinChdir(c.argv[0], c.argv, w.chdir);
    if chdir <= 0 {
      return chdir, code, forkFailed;
    }
    match w.fork {
      case ForkFailed =>
        pid, forkFailed := -1, true;
      case Forked(env) =>
        pid := w.pid;
        code := ParChildExit(c, w, env);
    }
  }

  lemma {:induction false} WaitBeyondBye(ss: seq<Slot>, k: nat, n: nat, res: int)
    requires k <= n <= |ss|
    requires WaitRun(ss, k, res) == Bye
    ensures WaitRun(ss, n, res) == Bye
    decreases n - k
  {
    if k < n {
      WaitBeyondBye(ss, k + 1, n, res);
    }
  }

  /**
   * The wait loop stated without the fold: the shell exits iff some child
   * exits with EXIT_BYE; otherwise the result is -1 iff `res` was or some
   * child exited with EXIT_ON_FAILURE, and `res` itself otherwise.
   */
  lemma {:induction false} WaitRunMeaning(ss: seq<Slot>, n: nat, res: int)
    requires n <= |ss|
    ensures WaitRun(ss, n, res) == Bye <==> exists i :: 0 <= i < n && ss[i].Child? && ss[i].code == EXIT_BYE
    ensures WaitRun(ss, n, res).Done? ==>
              WaitRun(ss, n, res) == (if exists i :: 0 <= i < n && ss[i].Child? && ss[i].code == EXIT_ON_FAILURE
                                      then Done(-1) else Done(res))
  {
    if n > 0 {
      WaitRunMeaning(ss, n - 1, res);
      if WaitRun(ss, n, res).Done? && !exists i :: 0 <= i < n && ss[i].Child? && ss[i].code == EXIT_ON_FAILURE {
        assert !(ss[n - 1].Child? && ss[n - 1].code == EXIT_ON_FAILURE);
      }
    }
  }

  /** A slot whose child exits with `code`. */
  predicate ExitsWith(s: Slot, code: ExitCode)
  {
    s.Child? && s.code == code
  }

  /** A slot exec_cmds_par reports as a failure: a failed fork or a child that exits EXIT_ON_FAILURE. */
  predicate Fails(s: Slot)
  {
    s == NoFork || ExitsWith(s, EXIT_ON_FAILURE)
  }

  /**
   * What exec_cmds_par reports: the shell exits iff some child exits with
   * EXIT_BYE; otherwise -1 iff some fork failed or some child exited with
   * EXIT_ON_FAILURE, and 0 otherwise.  A `cd` that fails is not reported.
   */
  lemma {:induction false} ParOutcomeMeaning(ss: seq<Slot>)
    ensures ParOutcome(ss) == Bye <==> exists s :: s in ss && ExitsWith(s, EXIT_BYE)
    ensures ParOutcome(ss).Done? ==> (ParOutcome(ss) == Done(-1) <==> exists s :: s in ss && Fails(s))
    ensures ParOutcome(ss).Done? ==> ParOutcome(ss).res == 0 || ParOutcome(ss).res == -1
  {
    var n := |ss|;
    WaitRunMeaning(ss, n, LaunchRes(ss, n));
    if exists i :: 0 <= i < n && ss[i].Child? && ss[i].code == EXIT_BYE {
      var i :| 0 <= i < n && ss[i].Child? && ss[i].code == EXIT_BYE;
      assert ss[i] in ss && ExitsWith(ss[i], EXIT_BYE);
    }
    if exists i :: 0 <= i < n && (ss[i] == NoFork || (ss[i].Child? && ss[i].code == EXIT_ON_FAILURE)) {
      var i :| 0 <= i < n && (ss[i] == NoFork || (ss[i].Child? && ss[i].code == EXIT_ON_FAILURE));
      assert ss[i] in ss && Fails(ss[i]);
    }
    if exists s :: s in ss && ExitsWith(s, EXIT_BYE) {
      var s :| s in ss && ExitsWith(s, EXIT_BYE);
      var i :| 0 <= i < n && ss[i] == s;
      assert ss[i].Child? && ss[i].code == EXIT_BYE;
    }
    if exists s :: s in ss && Fails(s) {
      var s :| s in ss && Fails(s);
      var i :| 0 <= i < n && ss[i] == s;
      assert ss[i] == NoFork || (ss[i].Child? && ss[i].code == EXIT_ON_FAILURE);
    }
  }

  /**
   * In a `&` line, a `cd` runs in the shell and is never waited for; when it
   * fails, nothing reports it.
   */
  lemma {:induction false} ParFailedCdUnreported(ss: seq<Slot>, i: nat)
    requires i < |ss| && ss[i] == InShell(-1)
    requires forall j :: 0 <= j < |ss| && j != i ==> ss[j].Child? && ss[j].code == 0
    ensures ParOutcome(ss) == Done(0)
  {
    ParOutcomeMeaning(ss);
  }

  /** An empty clause in a `&` line makes the launch as written undefined. */
  lemma EmptyClauseUndefined(redir: Char, target: seq<seq<Char>>, w: ParWorld)
    ensures LaunchAsWritten(Command([], redir, target), w).None?
    ensures Launched(Command([], redir, target), w) == Skipped && PidOf(Skipped) == 0
  {
  }
}
