/**
 * The control flow of `Main`: the argument-count check and the `-reset`
 * shortcut, the judge-process guard, the pair loop, the inbox check, the
 * copy under the generated name and the wait for the result log.
 *
 * What `Main` learns from outside (the loaded settings, whether first-run
 * setup failed, whether the judge process runs, the filesystem, the random
 * value and the clock) arrives in an `Environment`; the process-wide
 * statics the source mutates become locals and inputs.
 */
module AutoJudge {
  import opened Text
  import opened Naming
  import opened Arguments
  import opened Waiter

  datatype Environment = Environment(
    setupFailed: bool,           // first-run setup threw, and the arguments were flagged invalid
    themisRunning: bool,         // a process named "Themis" exists
    osdRuntime: string,          // inbox directory from the settings
    usernameRuntime: string,     // user name from the settings
    fullPath: string -> string,  // `Path.GetFullPath`
    directories: set<string>,    // the paths for which `Directory.Exists` holds
    rnd: RandomValue,            // `new Random().Next()`
    copySucceeds: bool,          // `File.Copy` does not throw
    start: int,                  // `DateTime.Now` before the wait, in ticks
    polls: seq<Poll>)            // what the wait loop observes

  /** How a run ends. */
  datatype Outcome =
    | ConfigurationReset                     // `Reset()` and return
    | ProcessNotFound                        // "Themis is not running"
    | InvalidArguments                       // "Invalid arguments"
    | CopyFailed(destination: string)        // `File.Copy` threw; nothing is awaited
    | TimedOut(logPath: string)              // "Idleness Limit Exceeded"
    | ResultReady(logPath: string, polls: nat)  // the log is shown
    | Waiting(logPath: string)               // the observed polls ended with the loop still running

  /** The argument counts `Main` refuses (odd, or none at all). */
  predicate MalformedCount(args: seq<string>)
  {
    |args| % 2 == 1 || |args| == 0
  }

  /** The outcome of `Main` on `args` in `env`, with the wait loop's timeout test `rule`. */
  function Decide(args: seq<string>, env: Environment, rule: TimeoutRule): Outcome
  {
    if MalformedCount(args) && |args| == 1 && args[0] == ResetFlag then ConfigurationReset
    else if !env.themisRunning then ProcessNotFound
    else if MalformedCount(args) || env.setupFailed then InvalidArguments
    else
      Submit(Fold(Initial(env.osdRuntime, env.usernameRuntime), Pairs(args), env.fullPath), env, rule)
  }

  /** The rest of `Main` once the pair loop has set the locals `p`. */
  function Submit(p: Parsed, env: Environment, rule: TimeoutRule): Outcome
  {
    if !p.hasFile || p.osd !in env.directories then InvalidArguments
    else
      var t := SubmissionTarget(env.rnd, p.filePath, p.osd, p.userName);
      if !env.copySucceeds then CopyFailed(t.destination)
      else match WaitFrom(rule, env.start, env.polls, 0)
        case Found(n) => ResultReady(t.logPath, n)
        case Expired(_) => TimedOut(t.logPath)
        case Pending => Waiting(t.logPath)
  }

  /**
   * A well-formed request that reaches the copy: an even, non-zero number of
   * arguments, the judge running, setup intact, a `-src` pair, and an
   * existing inbox (the last `-osd` value, or the configured one).
   */
  predicate ValidRequest(args: seq<string>, env: Environment)
  {
    && !MalformedCount(args)
    && env.themisRunning
    && !env.setupFailed
    && LastValue(Pairs(args), SrcFlag).Some?
    && ValueOr(LastValue(Pairs(args), OsdFlag), env.osdRuntime) in env.directories
  }

  /** The copy target a valid request asks for: last `-src`, last `-osd`, last `-user`. */
  function RequestedTarget(args: seq<string>, env: Environment): Target
    requires ValidRequest(args, env)
  {
    SubmissionTarget(
      env.rnd,
      env.fullPath(LastValue(Pairs(args), SrcFlag).value),
      ValueOr(LastValue(Pairs(args), OsdFlag), env.osdRuntime),
      ValueOr(LastValue(Pairs(args), UserFlag), env.usernameRuntime))
  }

  /**
   * The environments the program can actually be in after `Initialize`: unless
   * first-run setup failed, `GetSettings` has created the configured inbox
   * (a `CreateDirectory` that throws ends the program and is not modelled).
   */
  predicate SettingsApplied(env: Environment)
  {
    !env.setupFailed ==> env.osdRuntime in env.directories
  }

  /** The outcomes in which `File.Copy` was called. */
  predicate CopyAttempted(o: Outcome)
  {
    o.CopyFailed? || o.TimedOut? || o.ResultReady? || o.Waiting?
  }

  /**
   * `Main` itself. The reset and process checks come before the argument
   * checks, the pair loop runs only on an even count, and the copy only
   * when a source file was given and the inbox exists.
   */
  method Run(args: seq<string>, env: Environment, rule: TimeoutRule) returns (outcome: Outcome)
    ensures outcome == Decide(args, env, rule)
  {
    var invalidArguments := false;
    if |args| % 2 == 1 || |args| == 0 {
      if |args| == 1 && args[0] == ResetFlag {
        return ConfigurationReset;
      } else {
        invalidArguments := true;
      }
    }

    // Initialize(): a failed first-run setup also flags the arguments.
    if env.setupFailed {
      invalidArguments := true;
    }

    if !env.themisRunning {
      return ProcessNotFound;
    }
    if invalidArguments {
      return InvalidArguments;
    }

    var filePath, osd, userName, hasFile :=
      ParseArguments(args, env.osdRuntime, env.usernameRuntime, env.fullPath);

    if !hasFile || osd !in env.directories {
      return InvalidArguments;
    }

    var target := SubmissionTarget(env.rnd, filePath, osd, userName);
    if !env.copySucceeds {
      return CopyFailed(target.destination);
    }

    var w := WaitForResult(rule, env.start, env.polls);
    if w.Expired? {
      outcome := TimedOut(target.logPath);
    } else if w.Found? {
      outcome := ResultReady(target.logPath, w.polls);
    } else {
      outcome := Waiting(target.logPath);
    }
  }

  /** The reset path is taken for exactly one argument list: `["-reset"]`, case-sensitive. */
  lemma ResetOnlyForExactFlag(args: seq<string>, env: Environment, rule: TimeoutRule)
    ensures Decide(args, env, rule) == ConfigurationReset <==> args == [ResetFlag]
    ensures Decide(["-RESET"], env, rule) != ConfigurationReset
  {
    if args == [ResetFlag] {
      assert |args| == 1 && args[0] == ResetFlag;
    }
    assert ["-RESET"][0] != ResetFlag;
  }

  /**
   * Apart from the reset, an absent judge process ends every run, before the
   * arguments are looked at and before anything is copied.
   */
  lemma ProcessGuardFirst(args: seq<string>, env: Environment, rule: TimeoutRule)
    requires args != [ResetFlag]
    ensures Decide(args, env, rule) == ProcessNotFound <==> !env.themisRunning
    ensures !env.themisRunning ==> !CopyAttempted(Decide(args, env, rule))
  {
  }

  /** An odd or empty argument list other than `["-reset"]` never gets past the checks. */
  lemma MalformedArgumentsRejected(args: seq<string>, env: Environment, rule: TimeoutRule)
    requires MalformedCount(args) && args != [ResetFlag]
    ensures Decide(args, env, rule) == (if env.themisRunning then InvalidArguments else ProcessNotFound)
  {
  }

  /**
   * The copy happens exactly for a valid request, and then under the target
   * named by the last `-src`, `-osd` and `-user` pairs (or the settings):
   * a failed copy reports that destination, and every later outcome carries
   * that target's log path.
   */
  lemma CopyOnlyForValidRequest(args: seq<string>, env: Environment, rule: TimeoutRule)
    ensures CopyAttempted(Decide(args, env, rule)) <==> ValidRequest(args, env)
    ensures ValidRequest(args, env) ==>
      var o, t := Decide(args, env, rule), RequestedTarget(args, env);
      (o.CopyFailed? <==> !env.copySucceeds) &&
      (o.CopyFailed? ==> o.destination == t.destination) &&
      (!o.CopyFailed? ==> o.logPath == t.logPath)
  {
    if !MalformedCount(args) && env.themisRunning && !env.setupFailed {
      var init := Initial(env.osdRuntime, env.usernameRuntime);
      FoldIsSummary(init, Pairs(args), env.fullPath);
      var p := Fold(init, Pairs(args), env.fullPath);
      assert Decide(args, env, rule) == Submit(p, env, rule);
      SubmitCopies(p, env, rule);
      if ValidRequest(args, env) {
        assert SubmissionTarget(env.rnd, p.filePath, p.osd, p.userName) == RequestedTarget(args, env);
      }
    }
  }

  /**
   * In a reachable environment a request that names a file and no inbox is
   * never turned away: the configured inbox exists, so the file is copied.
   */
  lemma ConfiguredInboxAccepted(args: seq<string>, env: Environment, rule: TimeoutRule)
    requires SettingsApplied(env) && env.themisRunning && !env.setupFailed && !MalformedCount(args)
    requires LastValue(Pairs(args), SrcFlag).Some? && LastValue(Pairs(args), OsdFlag).None?
    ensures ValidRequest(args, env)
    ensures CopyAttempted(Decide(args, env, rule))
    ensures Decide(args, env, rule) != InvalidArguments
  {
    CopyOnlyForValidRequest(args, env, rule);
  }

  /** After the pair loop: the copy happens when a file was given and the inbox exists. */
  lemma SubmitCopies(p: Parsed, env: Environment, rule: TimeoutRule)
    ensures CopyAttempted(Submit(p, env, rule)) <==> p.hasFile && p.osd in env.directories
    ensures p.hasFile && p.osd in env.directories ==>
      var o, t := Submit(p, env, rule), SubmissionTarget(env.rnd, p.filePath, p.osd, p.userName);
      (o.CopyFailed? <==> !env.copySucceeds) &&
      (o.CopyFailed? ==> o.destination == t.destination) &&
      (!o.CopyFailed? ==> o.logPath == t.logPath)
  {
    if p.hasFile && p.osd in env.directories && env.copySucceeds {
      var t := SubmissionTarget(env.rnd, p.filePath, p.osd, p.userName);
      match WaitFrom(rule, env.start, env.polls, 0)
      case Found(n) => assert Submit(p, env, rule) == ResultReady(t.logPath, n);
      case Expired(_) => assert Submit(p, env, rule) == TimedOut(t.logPath);
      case Pending => assert Submit(p, env, rule) == Waiting(t.logPath);
    }
  }

  /**
   * As written, a run never ends in a timeout: once the file is copied it
   * shows the result at the first poll that finds the log, and otherwise is
   * still waiting.
   */
  lemma AsWrittenRunNeverTimesOut(args: seq<string>, env: Environment)
    ensures !Decide(args, env, SubSecondComponent).TimedOut?
    ensures ValidRequest(args, env) && env.copySucceeds &&
            (forall j :: 0 <= j < |env.polls| ==> !env.polls[j].resultExists) ==>
      Decide(args, env, SubSecondComponent).Waiting?
  {
    AsWrittenWaitsForResult(env.start, env.polls, 0);
    CopyOnlyForValidRequest(args, env, SubSecondComponent);
  }

  /**
   * With the intended timeout test, a run whose copy succeeded ends, by the
   * first poll past the limit at the latest, with the result or a timeout.
   */
  lemma IntendedRunIsBounded(args: seq<string>, env: Environment, m: nat)
    requires ValidRequest(args, env) && env.copySucceeds
    requires m < |env.polls| && env.polls[m].now - env.start > MaximumTimeoutMilliseconds * TicksPerMillisecond
    ensures var o := Decide(args, env, TotalElapsed);
      o.TimedOut? || (o.ResultReady? && o.polls <= m)
  {
    IntendedWaitIsBounded(env.start, env.polls, m);
    CopyOnlyForValidRequest(args, env, TotalElapsed);
  }
}
