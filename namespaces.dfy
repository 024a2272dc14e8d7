/**
 * The starting OCI runtime spec of the launcher (minimalSpec) and the
 * namespace additions requested on the command line (addNamespaces), which
 * update the spec's namespace list in place.
 */
module Namespaces {
  import opened Wrappers
  import opened Errors
  import opened RuntimeSpec
  import opened Sequences

  /** defaultNamespaces: what the native runtime uses with --compat / --containall. */
  const DefaultNamespaces: seq<NamespaceType> := [IpcNamespace, PidNamespace, MountNamespace]

  /** The single environment entry of the minimal spec. */
  const DefaultPathEntry := "PATH=/usr/local/sbin:/usr/local/bin:/usr/sbin:/usr/bin:/sbin:/bin"

  /** The launcher.Namespaces flags. */
  datatype NamespaceFlags = NamespaceFlags(user: bool, uts: bool, pid: bool, ipc: bool, net: bool)

  /**
   * minimalSpec: a writable "rootfs" root, a shell at / on a terminal with the
   * default PATH, no mounts, and the default namespaces; `version` is the
   * runtime-spec version the library declares.
   */
  function MinimalSpec(version: string): (s: Spec)
    ensures s.version == version
  {
    Spec(
      version := version,
      process := Process(
        terminal := true,
        user := User(0, 0, []),
        args := ["sh"],
        env := [DefaultPathEntry],
        cwd := "/",
        capabilities := None,
        noNewPrivileges := false),
      root := Root("rootfs", false),
      mounts := [],
      linux := Linux([], [], DefaultNamespaces))
  }

  /** The namespace list after addNamespaces, and its error, given the rootless uid lookup's result. */
  function NamespacesAfter(start: seq<NamespaceType>, ns: NamespaceFlags, uid: Result<int, string>)
    : (seq<NamespaceType>, Option<Error>)
  {
    var afterNet := if ns.net then start + [NetworkNamespace] else start;
    if ns.user && uid.Failure? then (afterNet, Some(UidLookupFailed(uid.error)))
    else
      var afterUser := if ns.user && uid.value == 0 then afterNet + [UserNamespace] else afterNet;
      var afterUts := if ns.uts then afterUser + [UtsNamespace] else afterUser;
      (afterUts, None)
  }

  /** A spec the launcher updates in place. */
  class MutableSpec {
    var spec: Spec

    constructor (s: Spec)
      ensures spec == s
    {
      spec := s;
    }

    /** Appends one namespace to the spec's list. */
    method AppendNamespace(t: NamespaceType)
      modifies this
      ensures spec == old(spec).(linux := old(spec).linux.(namespaces := old(spec).linux.namespaces + [t]))
    {
      spec := spec.(linux := spec.linux.(namespaces := spec.linux.namespaces + [t]));
    }

    /**
     * addNamespaces: Network if requested, then User if requested and the
     * caller is root, then UTS if requested; the IPC and PID flags only log.
     * A failed uid lookup stops the additions and is returned.
     */
    method AddNamespaces(ns: NamespaceFlags, uid: Result<int, string>) returns (err: Option<Error>)
      modifies this
      ensures (spec.linux.namespaces, err) == NamespacesAfter(old(spec.linux.namespaces), ns, uid)
      ensures spec == old(spec).(linux := old(spec).linux.(namespaces := spec.linux.namespaces))
    {
      if ns.net {
        AppendNamespace(NetworkNamespace);
      }
      if ns.user {
        if uid.Failure? {
          return Some(UidLookupFailed(uid.error));
        }
        if uid.value == 0 {
          AppendNamespace(UserNamespace);
        }
      }
      if ns.uts {
        AppendNamespace(UtsNamespace);
      }
      return None;
    }
  }

  /** The position of an addable namespace in the fixed append order. */
  function AppendRank(t: NamespaceType): nat {
    match t
    case NetworkNamespace => 0
    case UserNamespace => 1
    case UtsNamespace => 2
    case _ => 3
  }

  /**
   * addNamespaces keeps the existing list as a prefix and appends only
   * Network, User and UTS, each at most once and in that order.
   */
  lemma NamespacesAfterAppends(start: seq<NamespaceType>, ns: NamespaceFlags, uid: Result<int, string>)
    ensures var nss := NamespacesAfter(start, ns, uid).0;
      && |start| <= |nss| && nss[..|start|] == start
      && (forall i :: |start| <= i < |nss| ==> AppendRank(nss[i]) < 3)
      && (forall i, j :: |start| <= i < j < |nss| ==> AppendRank(nss[i]) < AppendRank(nss[j]))
  {
  }

  /** Which namespaces get added, and when an error comes back. */
  lemma NamespacesAfterMembership(start: seq<NamespaceType>, ns: NamespaceFlags, uid: Result<int, string>)
    ensures var (nss, err) := NamespacesAfter(start, ns, uid);
      && (err.Some? <==> ns.user && uid.Failure?)
      && (err.Some? ==> err.value == UidLookupFailed(uid.error))
      && (NetworkNamespace in nss[|start|..] <==> ns.net)
      && (UserNamespace in nss[|start|..] <==> ns.user && uid == Success(0))
      && (UtsNamespace in nss[|start|..] <==> ns.uts && err.None?)
  {
    var (nss, err) := NamespacesAfter(start, ns, uid);
    NamespacesAfterAppends(start, ns, uid);
    var added := nss[|start|..];
    var afterNet := if ns.net then start + [NetworkNamespace] else start;
    assert afterNet[|start|..] == if ns.net then [NetworkNamespace] else [];
    if err.None? {
      var afterUser := if ns.user && uid.value == 0 then afterNet + [UserNamespace] else afterNet;
      assert afterUser[|start|..] == afterNet[|start|..] + (if ns.user && uid.value == 0 then [UserNamespace] else []);
      assert added == afterUser[|start|..] + (if ns.uts then [UtsNamespace] else []);
    }
  }

  /** The IPC and PID flags never change the outcome. */
  lemma NamespacesAfterRedundantFlags(start: seq<NamespaceType>, ns: NamespaceFlags, uid: Result<int, string>, pid: bool, ipc: bool)
    ensures NamespacesAfter(start, ns.(pid := pid, ipc := ipc), uid) == NamespacesAfter(start, ns, uid)
  {
  }

  /**
   * Starting from the defaults, the list never holds a namespace twice and
   * has one entry per default plus one per namespace actually added.
   */
  lemma NamespacesFromDefaults(ns: NamespaceFlags, uid: Result<int, string>)
    ensures var (nss, err) := NamespacesAfter(DefaultNamespaces, ns, uid);
      && NoDuplicates(nss)
      && |nss| == 3 + (if ns.net then 1 else 0) + (if ns.user && uid == Success(0) then 1 else 0)
                    + (if ns.uts && err.None? then 1 else 0)
  {
    var (nss, err) := NamespacesAfter(DefaultNamespaces, ns, uid);
    NamespacesAfterAppends(DefaultNamespaces, ns, uid);
    NamespacesAfterMembership(DefaultNamespaces, ns, uid);
    forall i, j | 0 <= i < j < |nss| ensures nss[i] != nss[j] {
      if j >= 3 && i < 3 {
        assert nss[i] == DefaultNamespaces[i];
        assert AppendRank(nss[j]) < 3;
      }
    }
    var added := nss[3..];
    assert nss == DefaultNamespaces + added;
    var count := (if ns.net then 1 else 0) + (if ns.user && uid == Success(0) then 1 else 0) + (if ns.uts && err.None? then 1 else 0);
    assert |added| == count by {
      var afterNet := if ns.net then DefaultNamespaces + [NetworkNamespace] else DefaultNamespaces;
      if err.None? {
        var afterUser := if ns.user && uid.value == 0 then afterNet + [UserNamespace] else afterNet;
        assert |afterUser| == 3 + (if ns.net then 1 else 0) + (if ns.user && uid == Success(0) then 1 else 0);
      }
    }
  }

  /** The expected lists of spec_linux_test.go's table, run as a non-root user (uid 1000). */
  lemma NamespacesTestTable()
    ensures NamespacesAfter(DefaultNamespaces, NamespaceFlags(false, false, false, false, false), Success(1000)) == (DefaultNamespaces, None)
    ensures NamespacesAfter(DefaultNamespaces, NamespaceFlags(false, false, true, false, false), Success(1000)) == (DefaultNamespaces, None)
    ensures NamespacesAfter(DefaultNamespaces, NamespaceFlags(false, false, false, true, false), Success(1000)) == (DefaultNamespaces, None)
    ensures NamespacesAfter(DefaultNamespaces, NamespaceFlags(true, false, false, false, false), Success(1000)) == (DefaultNamespaces, None)
    ensures NamespacesAfter(DefaultNamespaces, NamespaceFlags(false, false, false, false, true), Success(1000))
         == (DefaultNamespaces + [NetworkNamespace], None)
    ensures NamespacesAfter(DefaultNamespaces, NamespaceFlags(false, true, false, false, false), Success(1000))
         == (DefaultNamespaces + [UtsNamespace], None)
  {
  }

  /**
   * What minimalSpec fixes: IPC, PID and mount namespaces in that order, a
   * shell at / on a terminal with one PATH entry, no mounts, a writable
   * "rootfs" root; and what addNamespaces can then make of its list.
   */
  lemma MinimalSpecDefaults(version: string, ns: NamespaceFlags, uid: Result<int, string>)
    ensures var s := MinimalSpec(version);
      && s.linux.namespaces == [IpcNamespace, PidNamespace, MountNamespace]
      && s.process.args == ["sh"] && s.process.cwd == "/" && s.process.terminal
      && |s.process.env| == 1 && s.process.env[0] == DefaultPathEntry
      && s.mounts == [] && s.root.path == "rootfs" && !s.root.readonly
      && NoDuplicates(NamespacesAfter(s.linux.namespaces, ns, uid).0)
  {
    NamespacesFromDefaults(ns, uid);
  }
}
