/**
 * What the OCI launcher's process computation reads: the launcher's own
 * configuration, the image config, the execution parameters, and the host
 * state and foreign results it would otherwise fetch itself.
 */
module LauncherTypes {
  import opened Wrappers

  /** The launcher.Options fields the process computation reads. */
  datatype Options = Options(
    envFile: string,
    env: map<string, string>,
    cwdPath: string,
    noPrivs: bool,
    keepPrivs: bool,
    addCaps: seq<string>,
    dropCaps: seq<string>)

  /** The oci.Launcher fields the process computation reads. */
  datatype Launcher = Launcher(cfg: Options, homeDest: string, nativeSIF: bool)

  /** The imgspecv1.ImageConfig fields the process computation reads. */
  datatype ImageConfig = ImageConfig(user: string, env: seq<string>, entrypoint: seq<string>, cmd: seq<string>)

  /** The launcher.ExecParams fields the process computation reads. */
  datatype ExecParams = ExecParams(image: string, action: string, process: string, args: seq<string>)

  /**
   * Reads of host state and results of foreign calls, supplied by the caller:
   * os.Environ(), os.LookupEnv("TERM"), term.IsTerminal(stdin),
   * capabilities.GetProcessEffective(), os.ReadFile of the env file, the
   * shell interpreter's evaluation of that file (seeded with an empty
   * environment), and ep.ActionScriptArgs().
   */
  datatype Host = Host(
    environ: seq<string>,
    term: Option<string>,
    stdinIsTerminal: bool,
    processEffective: Result<seq<string>, string>,
    envFileContent: Result<string, string>,
    evaluateEnv: string -> Result<seq<string>, string>,
    actionScriptArgs: Result<seq<string>, string>)

  /**
   * Package-level tables the launcher consults: the known capability names
   * (capabilities.Map), the default capability list (oci.DefaultCaps) and
   * the variables an env file may not set (env.ReadOnlyVars).
   */
  datatype Tables = Tables(knownCaps: set<string>, defaultCaps: seq<string>, readOnlyVars: set<string>)
}
