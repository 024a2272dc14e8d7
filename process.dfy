/**
 * getProcess: the process section of the OCI runtime spec for a container,
 * built from the runtime environment layers, the working directory, the
 * capabilities, the command line and the merged environment list.
 */
module OciProcess {
  import opened Wrappers
  import opened Errors
  import opened RuntimeSpec
  import opened LauncherTypes
  import opened Environment
  import opened Capabilities
  import opened ProcessArgs
  import opened StringUtil

  /**
   * rtEnv as getProcess assembles it; the env file is consulted only when
   * one is configured, and its errors abort the whole call.
   */
  function RuntimeEnvOf(l: Launcher, image: ImageConfig, bundle: string, ep: ExecParams, host: Host, tables: Tables)
    : Result<map<string, string>, Error>
  {
    var fileEnv :=
      if l.cfg.envFile == "" then Success(map[])
      else EnvFileResult(l.cfg.envFile, host.envFileContent, host.evaluateEnv, tables.readOnlyVars);
    match fileEnv
    case Failure(e) => Failure(e)
    case Success(f) =>
      Success(RuntimeEnv(DefaultEnv(ep.image, bundle), host.term, PrefixedEnv(host.environ), f, l.cfg.env, image.user, l.homeDest))
  }

  /**
   * The outcome of getProcess when getProcessEnv visits the runtime keys in
   * `order`: the first failing step (env file, capabilities, command line)
   * decides the error.
   */
  function ProcessOf(l: Launcher, image: ImageConfig, bundle: string, ep: ExecParams, u: User,
                     host: Host, tables: Tables, order: seq<string>): Result<Process, Error>
  {
    match RuntimeEnvOf(l, image, bundle, ep, host, tables)
    case Failure(e) => Failure(e)
    case Success(rt) =>
      match ProcessCapabilities(l.cfg, u.uid, host.processEffective, tables)
      case Failure(e) => Failure(e)
      case Success(caps) =>
        match ProcessArgsFor(l.nativeSIF, ep.action, host.actionScriptArgs, image, ep)
        case Failure(e) => Failure(e)
        case Success(args) =>
          Success(Process(
            terminal := host.stdinIsTerminal,
            user := u,
            args := args,
            env := ProcessEnv(image.env, rt, order),
            cwd := ProcessCwd(l.cfg.cwdPath, l.homeDest),
            capabilities := Some(caps),
            noNewPrivileges := l.cfg.noPrivs))
  }

  /**
   * getProcess: layers the runtime environment step by step, then computes
   * the working directory, the no-new-privileges flag, the capabilities and
   * the command line, and merges the environment into the image's.
   */
  method GetProcess(l: Launcher, image: ImageConfig, bundle: string, ep: ExecParams, u: User, host: Host, tables: Tables)
    returns (r: Result<Process, Error>, ghost order: seq<string>)
    ensures r == ProcessOf(l, image, bundle, ep, u, host, tables, order)
    ensures r.Success? ==> IsEnumeration(order, RuntimeEnvOf(l, image, bundle, ep, host, tables).value.Keys)
  {
    order := [];
    var rtEnv := DefaultEnv(ep.image, bundle);
    if host.term.Some? {
      rtEnv := rtEnv["TERM" := host.term.value];
    }
    var prefixed := ApptainerEnvMap(host.environ);
    rtEnv := MergeMap(rtEnv, prefixed);
    ghost var fileEnv: map<string, string> := map[];
    ghost var beforeFile := rtEnv;
    if l.cfg.envFile != "" {
      var e := EnvFileMap(l.cfg.envFile, host.envFileContent, host.evaluateEnv, tables.readOnlyVars);
      if e.Failure? {
        return Failure(e.error), order;
      }
      rtEnv := MergeMap(rtEnv, e.value);
      fileEnv := e.value;
    } else {
      assert MergeMap(rtEnv, fileEnv) == rtEnv;
    }
    assert rtEnv == MergeMap(beforeFile, fileEnv);
    assert (if l.cfg.envFile == "" then Success(map[])
            else EnvFileResult(l.cfg.envFile, host.envFileContent, host.evaluateEnv, tables.readOnlyVars)) == Success(fileEnv);
    rtEnv := MergeMap(rtEnv, l.cfg.env);
    if image.user == "" {
      rtEnv := rtEnv["HOME" := l.homeDest];
    }
    assert rtEnv == RuntimeEnv(DefaultEnv(ep.image, bundle), host.term, prefixed, fileEnv, l.cfg.env, image.user, l.homeDest);
    assert RuntimeEnvOf(l, image, bundle, ep, host, tables) == Success(rtEnv);

    var cwd := ProcessCwd(l.cfg.cwdPath, l.homeDest);

    var noNewPrivs := false;
    if l.cfg.noPrivs {
      noNewPrivs := true;
    }

    var caps := ProcessCapabilities(l.cfg, u.uid, host.processEffective, tables);
    if caps.Failure? {
      return Failure(caps.error), order;
    }

    var args: seq<string>;
    if l.nativeSIF {
      if host.actionScriptArgs.Failure? {
        return Failure(ProcessArgsFailed(host.actionScriptArgs.error)), order;
      }
      args := host.actionScriptArgs.value;
    } else if ep.action == "shell" {
      args := ShellArgs;
    } else {
      args := GetProcessArgs(image, ep);
    }

    assert ProcessArgsFor(l.nativeSIF, ep.action, host.actionScriptArgs, image, ep) == Success(args);

    var env;
    env, order := GetProcessEnv(image.env, rtEnv);
    r := Success(Process(
      terminal := host.stdinIsTerminal,
      user := u,
      args := args,
      env := env,
      cwd := cwd,
      capabilities := Some(caps.value),
      noNewPrivileges := noNewPrivs));
  }

  /** The env-file errors of getProcess, which come before every other step. */
  lemma ProcessOfEnvFileErrors(l: Launcher, image: ImageConfig, bundle: string, ep: ExecParams, u: User,
                               host: Host, tables: Tables, order: seq<string>)
    ensures l.cfg.envFile != "" && host.envFileContent.Failure? ==>
      ProcessOf(l, image, bundle, ep, u, host, tables, order) == Failure(EnvFileUnreadable(l.cfg.envFile, host.envFileContent.error))
    ensures l.cfg.envFile != "" && host.envFileContent.Success? && host.evaluateEnv(host.envFileContent.value).Failure? ==>
      ProcessOf(l, image, bundle, ep, u, host, tables, order) == Failure(EnvFileInvalid(l.cfg.envFile, host.evaluateEnv(host.envFileContent.value).error))
    ensures RuntimeEnvOf(l, image, bundle, ep, host, tables).Failure? <==>
      l.cfg.envFile != "" && (host.envFileContent.Failure? || host.evaluateEnv(host.envFileContent.value).Failure?)
  {
  }

  /**
   * The later errors of getProcess: reading the caller's effective
   * capabilities (needed only under KeepPrivs without NoPrivs) before the
   * native action script; nothing else fails.
   */
  lemma ProcessOfLaterErrors(l: Launcher, image: ImageConfig, bundle: string, ep: ExecParams, u: User,
                             host: Host, tables: Tables, order: seq<string>)
    requires RuntimeEnvOf(l, image, bundle, ep, host, tables).Success?
    ensures var capsFail := !l.cfg.noPrivs && l.cfg.keepPrivs && host.processEffective.Failure?;
      && (capsFail ==>
            ProcessOf(l, image, bundle, ep, u, host, tables, order) == Failure(CapabilityLookupFailed(host.processEffective.error)))
      && (!capsFail && l.nativeSIF && host.actionScriptArgs.Failure? ==>
            ProcessOf(l, image, bundle, ep, u, host, tables, order) == Failure(ProcessArgsFailed(host.actionScriptArgs.error)))
      && (ProcessOf(l, image, bundle, ep, u, host, tables, order).Failure? <==>
            capsFail || (l.nativeSIF && host.actionScriptArgs.Failure?))
  {
    var caps := ProcessCapabilities(l.cfg, u.uid, host.processEffective, tables);
    var args := ProcessArgsFor(l.nativeSIF, ep.action, host.actionScriptArgs, image, ep);
    var p := ProcessOf(l, image, bundle, ep, u, host, tables, order);
    ProcessCapabilitiesFailure(l.cfg, u.uid, host.processEffective, tables);
    if caps.Failure? {
      assert p == Failure(caps.error);
    } else if args.Failure? {
      assert p == Failure(args.error);
    } else {
      assert p.Success?;
    }
  }

  /**
   * A successful getProcess has the caller's user, the requested flags and
   * directory, the capability sets of getProcessCapabilities and the
   * environment list of getProcessEnv over rtEnv.
   */
  lemma ProcessOfFields(l: Launcher, image: ImageConfig, bundle: string, ep: ExecParams, u: User,
                        host: Host, tables: Tables, order: seq<string>)
    requires ProcessOf(l, image, bundle, ep, u, host, tables, order).Success?
    ensures var p := ProcessOf(l, image, bundle, ep, u, host, tables, order).value;
      && p.user == u
      && p.terminal == host.stdinIsTerminal
      && p.noNewPrivileges == l.cfg.noPrivs
      && p.cwd == (if l.cfg.cwdPath != "" then l.cfg.cwdPath else l.homeDest)
      && p.capabilities == Some(ProcessCapabilities(l.cfg, u.uid, host.processEffective, tables).value)
      && p.env == ProcessEnv(image.env, RuntimeEnvOf(l, image, bundle, ep, host, tables).value, order)
      && (l.nativeSIF ==> p.args == host.actionScriptArgs.value)
      && (!l.nativeSIF && ep.action == "shell" ==> p.args == ["/bin/sh", "-c", OciShellScript])
      && (!l.nativeSIF && ep.action != "shell" ==> p.args == GetProcessArgs(image, ep))
  {
  }

  /**
   * The --env flag wins over every other layer and over the image: a
   * non-special '='-free key given with --env ends up with that value,
   * unless it is HOME and the image names no user.
   */
  lemma FlagEnvWins(l: Launcher, image: ImageConfig, bundle: string, ep: ExecParams, u: User,
                    host: Host, tables: Tables, order: seq<string>, k: string)
    requires ProcessOf(l, image, bundle, ep, u, host, tables, order).Success?
    requires IsEnumeration(order, RuntimeEnvOf(l, image, bundle, ep, host, tables).value.Keys)
    requires EqualsFreeKeys(l.cfg.env.Keys)
    requires k in l.cfg.env && k !in SpecialKeys && !(k == "HOME" && image.user == "")
    ensures EnvLookup(ProcessOf(l, image, bundle, ep, u, host, tables, order).value.env, k) == Some(l.cfg.env[k])
  {
    var rt := RuntimeEnvOf(l, image, bundle, ep, host, tables).value;
    RuntimeEnvKeysEqualsFree(l, image, bundle, ep, host, tables);
    ProcessEnvLookup(image.env, rt, order, k);
  }

  /** Every key of rtEnv is '='-free when the --env keys are. */
  lemma RuntimeEnvKeysEqualsFree(l: Launcher, image: ImageConfig, bundle: string, ep: ExecParams, host: Host, tables: Tables)
    requires RuntimeEnvOf(l, image, bundle, ep, host, tables).Success?
    requires EqualsFreeKeys(l.cfg.env.Keys)
    ensures EqualsFreeKeys(RuntimeEnvOf(l, image, bundle, ep, host, tables).value.Keys)
  {
    forall e | PrefixedEntry(e).Some? ensures '=' !in PrefixedEntry(e).value.0 {
      PrefixedEntryMeaning(e, PrefixedEntry(e).value.0, PrefixedEntry(e).value.1);
    }
    EntriesToMapEqualsFree(host.environ, PrefixedEntry);
    if l.cfg.envFile != "" {
      var shellEnv := host.evaluateEnv(host.envFileContent.value).value;
      var parse := e => EnvFileEntry(e, tables.readOnlyVars);
      forall e | parse(e).Some? ensures '=' !in parse(e).value.0 {
        EnvFileEntryMeaning(e, tables.readOnlyVars, parse(e).value.0, parse(e).value.1);
      }
      EntriesToMapEqualsFree(shellEnv, parse);
    }
  }

  /**
   * A non-empty --env PATH is the process PATH, for every iteration order,
   * as long as no layer supplies APPEND_PATH or PREPEND_PATH: with PATH=/a in the image,
   * APPTAINERENV_PATH=/b on the host and PATH=/c from --env, the process
   * gets PATH=/c.
   */
  lemma FlagPathWins(l: Launcher, image: ImageConfig, bundle: string, ep: ExecParams, u: User,
                     host: Host, tables: Tables, order: seq<string>)
    requires ProcessOf(l, image, bundle, ep, u, host, tables, order).Success?
    requires "PATH" in l.cfg.env && l.cfg.env["PATH"] != ""
    requires "APPEND_PATH" !in RuntimeEnvOf(l, image, bundle, ep, host, tables).value
    requires "PREPEND_PATH" !in RuntimeEnvOf(l, image, bundle, ep, host, tables).value
    ensures EnvLookup(ProcessOf(l, image, bundle, ep, u, host, tables, order).value.env, "PATH") == Some(l.cfg.env["PATH"])
  {
    var rt := RuntimeEnvOf(l, image, bundle, ep, host, tables).value;
    assert rt["PATH"] == l.cfg.env["PATH"];
    var path := FinalPath(image.env, rt);
    assert path == l.cfg.env["PATH"];
    SpecialKeysEqualsFree();
    SetEnvOther(SetEnv(SetRuntimeVars(image.env, rt, order), "PATH", path), "LD_LIBRARY_PATH", FinalLdLibraryPath(image.env, rt), "PATH");
  }

}
