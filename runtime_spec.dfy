/**
 * The parts of the OCI runtime-spec Go types (specs-go) that the launcher
 * fills in. Pointers that the launcher always sets are plain fields here.
 */
module RuntimeSpec {
  import opened Wrappers

  /** Go's uint32. */
  type Uint32 = x: int | 0 <= x < 0x1_0000_0000

  /** specs.LinuxIDMapping: container IDs [containerId, containerId + size) map to host IDs from hostId. */
  datatype LinuxIdMapping = LinuxIdMapping(containerId: Uint32, hostId: Uint32, size: Uint32)

  /** specs.LinuxNamespaceType */
  datatype NamespaceType =
    | PidNamespace
    | NetworkNamespace
    | MountNamespace
    | IpcNamespace
    | UtsNamespace
    | UserNamespace
    | CgroupNamespace

  /** specs.LinuxCapabilities: the five capability sets, as name lists. */
  datatype LinuxCapabilities = LinuxCapabilities(
    bounding: seq<string>,
    effective: seq<string>,
    inheritable: seq<string>,
    permitted: seq<string>,
    ambient: seq<string>)

  /** specs.User */
  datatype User = User(uid: Uint32, gid: Uint32, additionalGids: seq<Uint32>)

  /** specs.Process; `capabilities` is a nil pointer in the minimal spec. */
  datatype Process = Process(
    terminal: bool,
    user: User,
    args: seq<string>,
    env: seq<string>,
    cwd: string,
    capabilities: Option<LinuxCapabilities>,
    noNewPrivileges: bool)

  /** specs.Root */
  datatype Root = Root(path: string, readonly: bool)

  /** specs.Mount */
  datatype Mount = Mount(destination: string, mountType: string, source: string, options: seq<string>)

  /** specs.Linux: only the ID mappings and the namespace list. */
  datatype Linux = Linux(
    uidMappings: seq<LinuxIdMapping>,
    gidMappings: seq<LinuxIdMapping>,
    namespaces: seq<NamespaceType>)

  /** specs.Spec */
  datatype Spec = Spec(version: string, process: Process, root: Root, mounts: seq<Mount>, linux: Linux)
}
