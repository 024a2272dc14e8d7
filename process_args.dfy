/**
 * The command line and working directory of the container process:
 * getProcessArgs (OCI image ENTRYPOINT/CMD with explicit overrides), the
 * mode switch of getProcess, and getProcessCwd.
 */
module ProcessArgs {
  import opened Wrappers
  import opened Errors
  import opened LauncherTypes

  /** The script /bin/sh runs to emulate the native runtime's interactive shell. */
  const OciShellScript := "export PS1='Apptainer> '; test -x /bin/bash && exec /bin/bash --norc || exec /bin/sh"

  /** The command line of the shell action on an OCI-SIF image. */
  const ShellArgs: seq<string> := ["/bin/sh", "-c", OciShellScript]

  /**
   * getProcessArgs: the prefix is the explicit process name, else the image
   * ENTRYPOINT; explicit arguments are appended, else the image CMD, but the
   * CMD only when no process name was given.
   */
  function GetProcessArgs(config: ImageConfig, ep: ExecParams): (args: seq<string>)
    ensures ep.process != "" ==> args == [ep.process] + ep.args
    ensures ep.process == "" && |ep.args| > 0 ==> args == config.entrypoint + ep.args
    ensures ep.process == "" && ep.args == [] ==> args == config.entrypoint + config.cmd
  {
    var processArgs := if ep.process != "" then [ep.process] else config.entrypoint;
    if |ep.args| > 0 then processArgs + ep.args
    else if ep.process == "" then processArgs + config.cmd
    else processArgs
  }

  /** Explicit arguments make the image CMD irrelevant; a process name makes ENTRYPOINT and CMD irrelevant. */
  lemma GetProcessArgsOverrides(config: ImageConfig, ep: ExecParams, other: ImageConfig)
    ensures |ep.args| > 0 ==> GetProcessArgs(config, ep) == GetProcessArgs(config.(cmd := other.cmd), ep)
    ensures ep.process != "" ==> GetProcessArgs(config, ep) == GetProcessArgs(other, ep)
  {
  }

  /** The two worked cases: image defaults, and a process name that suppresses CMD. */
  lemma GetProcessArgsExamples()
    ensures GetProcessArgs(ImageConfig("", [], ["/bin/foo"], ["--flag"]), ExecParams("", "", "", []))
         == ["/bin/foo", "--flag"]
    ensures GetProcessArgs(ImageConfig("", [], ["/bin/foo"], ["--flag"]), ExecParams("", "", "/bin/bar", []))
         == ["/bin/bar"]
  {
  }

  /**
   * The mode switch of getProcess: a native SIF image runs its in-container
   * action script (an error there is wrapped), else the shell action gets the
   * shell emulation, else the image config decides.
   */
  function ProcessArgsFor(nativeSIF: bool, action: string, actionScriptArgs: Result<seq<string>, string>,
                          config: ImageConfig, ep: ExecParams): (r: Result<seq<string>, Error>)
    ensures nativeSIF ==> (r.Failure? <==> actionScriptArgs.Failure?)
    ensures nativeSIF && actionScriptArgs.Failure? ==> r.error == ProcessArgsFailed(actionScriptArgs.error)
    ensures nativeSIF && actionScriptArgs.Success? ==> r.value == actionScriptArgs.value
    ensures !nativeSIF ==> r.Success?
    ensures !nativeSIF && action == "shell" ==> |r.value| == 3 && r.value[0] == "/bin/sh" && r.value[1] == "-c" && r.value[2] == OciShellScript
    ensures !nativeSIF && action != "shell" ==> r.value == GetProcessArgs(config, ep)
  {
    if nativeSIF then
      match actionScriptArgs
      case Failure(cause) => Failure(ProcessArgsFailed(cause))
      case Success(args) => Success(args)
    else if action == "shell" then Success(ShellArgs)
    else Success(GetProcessArgs(config, ep))
  }

  /** getProcessCwd: the requested working directory, or the home destination when none was requested. */
  function ProcessCwd(cwdPath: string, homeDest: string): (cwd: string)
    ensures cwdPath != "" ==> cwd == cwdPath
    ensures cwdPath == "" ==> cwd == homeDest
  {
    if |cwdPath| > 0 then cwdPath else homeDest
  }
}
