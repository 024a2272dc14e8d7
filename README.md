# Apptainer OCI launch-spec computation and image partition queries, in Dafny

This project models three core parts of Apptainer (Go):

- **The OCI launcher's process computation**
  (`internal/pkg/runtime/launcher/oci/process_linux.go`):
  - the runtime environment that `getProcess` layers up. The layers are defaults, host TERM, `APPTAINERENV_` variables, the env file, `--env` and HOME.
  - the merge of that environment into the image's ENV list (`getProcessEnv`). PATH, APPEND_PATH, PREPEND_PATH and LD_LIBRARY_PATH get special handling.
  - the command line (`getProcessArgs` and the native-SIF / shell / image switch).
  - the working directory.
  - the five capability sets (`getBaseCapabilities`, `getProcessCapabilities`).
  - the reverse UID/GID mapping used inside a fake-root user namespace (`reverseMapByRange` and the size checks of `getReverseUserMaps`).
- **The launcher's starting runtime spec and namespace additions**
  (`internal/pkg/runtime/launcher/oci/spec_linux.go`): `minimalSpec`, `defaultNamespaces`, and `addNamespaces`, which appends to the spec's namespace list in place.
- **The image object's partition queries** (`pkg/image/image.go`):
  - the format and usage constants.
  - usage-bitmask filtering of partitions and its four wrappers.
  - the root filesystem partition.
  - the encryption type of the root filesystem.
  - the authorized-path prefix decision.

Files and modules:

- `wrappers.dfy` (`Wrappers`): Option and Result.
- `errors.dfy` (`Errors`): the errors the code returns.
- `sequences.dfy` (`Sequences`): no-duplicates predicate.
- `strings.dfy` (`StringUtil`): `HasPrefix`, `TrimPrefix`, `Contains`, `SplitN(s, "=", 2)`.
- `runtime_spec.dfy` (`RuntimeSpec`): the OCI runtime-spec Go types.
- `launcher_types.dfy` (`LauncherTypes`): launcher options, image config, exec parameters, host inputs.
- `idmap.dfy` (`IdMap`): reverse ID mapping.
- `capabilities.dfy` (`Capabilities`): capability sets.
- `environment.dfy` (`Environment`): environment layering and getProcessEnv.
- `process_args.dfy` (`ProcessArgs`): command line and working directory.
- `process.dfy` (`OciProcess`): getProcess.
- `namespaces.dfy` (`Namespaces`): minimalSpec and addNamespaces.
- `image.dfy` (`Images`): partition queries.

Where the Go code updates state, the model has methods, with loops and invariants where the Go code loops, each proved equal to a specification function:

- `ApptainerEnvMap`, `EnvFileMap`, `GetProcessEnv` and `GetProcess`.
- `GetPartitions`, `EncryptedRootFs` and `AuthorizedPath`.
- `Namespaces.MutableSpec.AddNamespaces`, which updates a `spec` field in place.

Lemmas then prove the promised properties about those functions.

Go's map iteration order is random. `GetProcessEnv` therefore picks runtime keys with `:|` and returns the order it took as a ghost `order`. Its content lemma (`ProcessEnvContent`) holds for every order.

Host reads and foreign calls are inputs, bundled in `LauncherTypes.Host`:

- `os.Environ`, `os.LookupEnv("TERM")` and `term.IsTerminal`.
- `capabilities.GetProcessEffective`.
- `os.ReadFile` of the env file, and the shell interpreter's evaluation of it.
- `ep.ActionScriptArgs`.

The remaining inputs are parameters:

- the `fakeroot.GetIDRange` results.
- the `rootless.Getuid` result.
- `filepath.EvalSymlinks(filepath.Clean(p))`, as the `resolve` function of `AuthorizedPath`.
- the known capability names, `oci.DefaultCaps` and `env.ReadOnlyVars` (`Tables`).
- `specs.Version`.

Assumptions about helpers not part of this model:

- `mergeMap` is a right-biased union: the second map wins on a shared key.
- `generate.SetProcessEnv(k, v)` replaces the first `k=` entry, or appends `k=v` when there is none.
- `capabilities.Split` partitions names that are already separated by whether they are in the known-name table. It keeps their order and does not rewrite any name.
- `capabilities.RemoveDuplicated` keeps the first occurrence of each name.
- `lo.Without` removes every occurrence of each listed name.

Details of the code that are easy to misread:

- In the reverse map's in-range branch, the third entry starts at `target+1` and has size `size-target`. It therefore reaches container ID `size` inclusive, and both branches map `size + 1` IDs (`IdMap.ReverseMapTotalSize`).
- With target 0, a zero-size first entry is still emitted (`IdMap.ReverseMapInRange`).
- LD_LIBRARY_PATH gets the library directory appended only when it does not already occur. This is a substring test, not de-duplication (`Environment.FinalLdLibraryPathKeeps`).
- APPEND_PATH and PREPEND_PATH from the runtime map are never set in the list. Entries with those keys that the image's own ENV list already holds stay (`Environment.ExpectedEnvValue`).

## Model

| member | source | states |
|---|---|---|
| IdMap.ReverseMap | internal/pkg/runtime/launcher/oci/process_linux.go:180-248 | a 3-entry table when the target is below the range size, else a 2-entry table |
| IdMap.ReverseMapInRange | internal/pkg/runtime/launcher/oci/process_linux.go:181-198 | in range, the table is exactly [(0,1,target), (target,0,1), (target+1,target+1,size-target)]; target 0 gives a zero-size first entry; the third entry ends at size+1 |
| IdMap.ReverseMapOutOfRange | internal/pkg/runtime/launcher/oci/process_linux.go:199-212 | out of range, the table is exactly [(0,1,size), (target,0,1)] |
| IdMap.ReverseMapLookup | internal/pkg/runtime/launcher/oci/process_linux.go:180-212 | for every container ID, the first-match lookup in the table equals the reference HostOf: target to 0, IDs below target and size up by one, IDs after the target up to size unchanged, the rest unmapped |
| IdMap.ReverseMapRootIsTarget | internal/pkg/runtime/launcher/oci/process_linux.go:188-192 | a container ID reaches host 0 if and only if it is the target |
| IdMap.ReverseMapShiftsLowIds | internal/pkg/runtime/launcher/oci/process_linux.go:183-187 | every ID below both target and size maps to itself plus one |
| IdMap.ReverseMapPassesThrough | internal/pkg/runtime/launcher/oci/process_linux.go:193-197 | in range, IDs after the target up to size map to themselves |
| IdMap.ReverseMapInjective | internal/pkg/runtime/launcher/oci/process_linux.go:180-212 | two container IDs mapped to the same host ID are equal |
| IdMap.ReverseMapInverse | internal/pkg/runtime/launcher/oci/process_linux.go:180-212 | every mapped ID lands in host 0..size and ContainerOf recovers it |
| IdMap.ReverseMapOnto | internal/pkg/runtime/launcher/oci/process_linux.go:180-212 | every host ID 0..size is reached, from ContainerOf of it |
| IdMap.ReverseMapDisjoint | internal/pkg/runtime/launcher/oci/process_linux.go:180-212 | in both branches, entries overlap neither on the container side nor on the host side |
| IdMap.ReverseMapTotalSize | internal/pkg/runtime/launcher/oci/process_linux.go:180-212 | both branches map size+1 container IDs |
| IdMap.ReverseMapByRange | internal/pkg/runtime/launcher/oci/process_linux.go:180-248 | reverseMapByRange: the pair of tables; specified by ReverseMapByRangeIndependent and the ReverseMap lemmas |
| IdMap.CheckRange | internal/pkg/runtime/launcher/oci/process_linux.go:160-174 | one lookup and size check; specified by GetReverseUserMapsGuard and GetReverseUserMapsLookupFailure |
| IdMap.ReverseMapByRangeIndependent | internal/pkg/runtime/launcher/oci/process_linux.go:180-248 | the UID table depends only on the target UID and sub-UID size; the GID table only on the target GID and sub-GID size |
| IdMap.GetReverseUserMapsAsWritten | internal/pkg/runtime/launcher/oci/process_linux.go:158-178 | getReverseUserMaps as written, with the sub-GID error naming "subuid"; exhibited by GidRangeErrorNamesSubuid |
| IdMap.GidRangeErrorNamesSubuid | internal/pkg/runtime/launcher/oci/process_linux.go:172-174 | as written, a short sub-GID range with a good sub-UID range yields an error naming the sub-UID range |
| IdMap.GetReverseUserMaps | internal/pkg/runtime/launcher/oci/process_linux.go:158-178 | a range-size error names the range that is actually below 65536, with that range's size |
| IdMap.GetReverseUserMapsAsWrittenAgrees | internal/pkg/runtime/launcher/oci/process_linux.go:158-178 | the code as written and the corrected guard succeed together with the same tables; their errors are equal except that a too-small sub-GID range is reported as "subuid" with the same size |
| IdMap.GetReverseUserMapsGuard | internal/pkg/runtime/launcher/oci/process_linux.go:164-177 | with both lookups done, an error and no maps if and only if either size is below 65536 (sub-UID checked first), else exactly reverseMapByRange's tables |
| IdMap.GetReverseUserMapsLookupFailure | internal/pkg/runtime/launcher/oci/process_linux.go:160-171 | a failed range lookup is passed back; the sub-GID lookup is only reached after a good sub-UID range |
| IdMap.GetReverseUserMapsSound | internal/pkg/runtime/launcher/oci/process_linux.go:158-178 | returned maps come only from ranges of at least 65536, are disjoint, and send the target UID and GID to host 0 |
| Capabilities.Split | internal/pkg/runtime/launcher/oci/process_linux.go:398-406 | the known names and the ignored names partition the input |
| Capabilities.RemoveDuplicated | internal/pkg/runtime/launcher/oci/process_linux.go:409 | same members as the input, no duplicates, unchanged when the input has none |
| Capabilities.Without | internal/pkg/runtime/launcher/oci/process_linux.go:410 | exactly the members not dropped; keeps no-duplicates |
| Capabilities.BaseCapabilities | internal/pkg/runtime/launcher/oci/process_linux.go:373-388 | getBaseCapabilities; specified by ProcessCapabilitiesFailure and ProcessCapabilitiesBounding |
| Capabilities.BoundingCaps | internal/pkg/runtime/launcher/oci/process_linux.go:408-410 | the bounding list; specified by BoundingCapsMembership |
| Capabilities.ExplicitCaps | internal/pkg/runtime/launcher/oci/process_linux.go:425 | the explicit list; specified by ProcessCapabilitiesNonRoot and CapabilitySetInvariants |
| Capabilities.ProcessCapabilities | internal/pkg/runtime/launcher/oci/process_linux.go:392-433 | getProcessCapabilities; specified by ProcessCapabilitiesFailure, -Bounding, -Root, -NonRoot, CapabilitySetInvariants and UnknownNamesIgnored |
| Capabilities.ProcessCapabilitiesFailure | internal/pkg/runtime/launcher/oci/process_linux.go:373-396 | fails if and only if KeepPrivs is set without NoPrivs and reading the effective set fails; the error is that failure |
| Capabilities.ProcessCapabilitiesBounding | internal/pkg/runtime/launcher/oci/process_linux.go:373-410 | bounding is built from [] under NoPrivs, else the effective set under KeepPrivs, else the defaults |
| Capabilities.BoundingCapsMembership | internal/pkg/runtime/launcher/oci/process_linux.go:408-410 | a name is in bounding if and only if it is in the base or a known added name, and not a known dropped name; no duplicates |
| Capabilities.ProcessCapabilitiesRoot | internal/pkg/runtime/launcher/oci/process_linux.go:412-421 | for root, permitted == effective == bounding, inheritable and ambient empty |
| Capabilities.ProcessCapabilitiesNonRoot | internal/pkg/runtime/launcher/oci/process_linux.go:423-432 | for non-root, permitted == effective == inheritable == ambient == known added names not dropped |
| Capabilities.CapabilitySetInvariants | internal/pkg/runtime/launcher/oci/process_linux.go:408-432 | a dropped known name is in no set; every set lies within bounding; effective within permitted; ambient within permitted and inheritable; every explicit name is in bounding |
| Capabilities.UnknownNamesIgnored | internal/pkg/runtime/launcher/oci/process_linux.go:398-406 | unknown names inserted at any position of --add-caps or --drop-caps leave the result unchanged |
| Capabilities.KnownNamesUnchanged | internal/pkg/runtime/launcher/oci/process_linux.go:398-406 | unknown names inserted at any position leave the known names of a list, in order, unchanged |
| Environment.SetEnv | internal/pkg/runtime/launcher/oci/process_linux.go:289 | after setting, the key reads the new value; the list grows by at most one |
| Environment.SetEnvOther | internal/pkg/runtime/launcher/oci/process_linux.go:289 | setting one key leaves every other key's value unchanged |
| Environment.EntriesToMapKeys | internal/pkg/runtime/launcher/oci/process_linux.go:325-335 | a key is in the loop's map if and only if some accepted entry has it |
| Environment.EntriesToMapLastWins | internal/pkg/runtime/launcher/oci/process_linux.go:356-366 | the last accepted entry for a key gives its value |
| Environment.EntriesToMapEqualsFree | internal/pkg/runtime/launcher/oci/process_linux.go:356-366 | the map's keys hold no '=' when the parser yields none |
| Environment.DefaultEnv | internal/pkg/runtime/launcher/oci/process_linux.go:314-319 | the default variables' keys hold no '=' |
| Environment.PrefixedEntryMeaning | internal/pkg/runtime/launcher/oci/process_linux.go:326-334 | a host variable is taken as (k, v) if and only if it reads APPTAINERENV_k=v with no '=' in k |
| Environment.PrefixedEnv | internal/pkg/runtime/launcher/oci/process_linux.go:322-338 | apptainerEnvMap's result; specified by PrefixedEnvMeaning, PrefixedEnvIgnores and the example lemmas |
| Environment.ApptainerEnvMap | internal/pkg/runtime/launcher/oci/process_linux.go:322-338 | the loop builds exactly the map of prefixed variables; its keys hold no '=' |
| Environment.PrefixedEnvMeaning | internal/pkg/runtime/launcher/oci/process_linux.go:322-338 | each APPTAINERENV_k=v variable gives key k, and the last such variable gives the value |
| Environment.PrefixedEnvIgnores | internal/pkg/runtime/launcher/oci/process_linux.go:326-332 | a variable without the prefix, or without '=', changes nothing |
| Environment.PrefixedEnvExamplesEmpty | internal/pkg/runtime/launcher/oci/process_linux_test.go:24-33 | no variables, or only FOO=bar, give the empty map |
| Environment.PrefixedEnvExamplesPrefixed | internal/pkg/runtime/launcher/oci/process_linux_test.go:34-49 | one prefixed variable gives one key with the prefix stripped; two give both keys |
| Environment.EnvFileEntryMeaning | internal/pkg/runtime/launcher/oci/process_linux.go:356-365 | an env-file entry is taken as (k, v) if and only if it reads k=v, with no '=' in k and k not read-only |
| Environment.EnvFileEnv | internal/pkg/runtime/launcher/oci/process_linux.go:356-366 | the map of the env-file loop; specified by EnvFileEntryMeaning and the EntriesToMap lemmas |
| Environment.EnvFileResult | internal/pkg/runtime/launcher/oci/process_linux.go:341-369 | envFileMap's outcome including both errors; EnvFileMap is proved equal to it |
| Environment.EnvFileMap | internal/pkg/runtime/launcher/oci/process_linux.go:341-369 | a read error or an evaluation error names the file; otherwise the loop's map has no read-only key and no '=' in any key |
| Environment.MergeMap | internal/pkg/runtime/launcher/oci/process_linux.go:51-61 | the assumed right-biased mergeMap; specified by MapGetMerge |
| Environment.RuntimeEnv | internal/pkg/runtime/launcher/oci/process_linux.go:42-66 | rtEnv's layering; specified by RuntimeEnvPrecedence and RuntimeEnvEqualsFree |
| Environment.MapGetMerge | internal/pkg/runtime/launcher/oci/process_linux.go:51-61 | a merge looks up the second map first, then the first |
| Environment.RuntimeEnvPrecedence | internal/pkg/runtime/launcher/oci/process_linux.go:42-66 | every key reads from the highest layer that has it (defaults < TERM < APPTAINERENV_ < env file < --env), except HOME, which reads homeDest exactly when the image user is empty |
| Environment.RuntimeEnvEqualsFree | internal/pkg/runtime/launcher/oci/process_linux.go:42-66 | rtEnv's keys hold no '=' when every layer's keys hold none |
| Environment.LastValue | internal/pkg/runtime/launcher/oci/process_linux.go:264-275 | the image loop's PATH / LD_LIBRARY_PATH local; GetProcessEnv's loop invariant is tied to it |
| Environment.FinalPath | internal/pkg/runtime/launcher/oci/process_linux.go:293-299 | the computed PATH; specified by FinalPathRules, used by ExpectedEnvValue and FlagPathWins |
| Environment.FinalPathRules | internal/pkg/runtime/launcher/oci/process_linux.go:293-299 | the runtime PATH (else the image's last PATH) is kept without APPEND_PATH and PREPEND_PATH; a non-empty APPEND_PATH is joined after it and a non-empty PREPEND_PATH before everything, with ':' |
| Environment.FinalLdLibraryPath | internal/pkg/runtime/launcher/oci/process_linux.go:304-307 | the final library path always contains /.singularity.d/libs |
| Environment.FinalLdLibraryPathKeeps | internal/pkg/runtime/launcher/oci/process_linux.go:305-307 | a path already containing it is kept unchanged; an empty one becomes exactly /.singularity.d/libs |
| Environment.FinalLdLibraryPathAppends | internal/pkg/runtime/launcher/oci/process_linux.go:305-307 | a non-empty path without the bind directory becomes path + ":" + directory, losing only a leading ':' of the path |
| Environment.SetRuntimeVars | internal/pkg/runtime/launcher/oci/process_linux.go:278-291 | the list after the runtime loop for a given order; specified by SetRuntimeVarsLookup |
| Environment.ProcessEnv | internal/pkg/runtime/launcher/oci/process_linux.go:253-311 | getProcessEnv's result for a given order; specified by ProcessEnvLookup and ProcessEnvContent |
| Environment.SetRuntimeVarsLookup | internal/pkg/runtime/launcher/oci/process_linux.go:278-291 | after the runtime loop, visited non-special keys read their runtime value; every other key keeps the image's |
| Environment.ProcessEnvLookup | internal/pkg/runtime/launcher/oci/process_linux.go:253-311 | for any iteration order, each key reads ExpectedEnvValue. LD_LIBRARY_PATH reads the computed path; PATH the computed path when non-empty; APPEND_PATH and PREPEND_PATH only the image's; runtime keys their value; others the image's |
| Environment.ProcessEnvContent | internal/pkg/runtime/launcher/oci/process_linux.go:253-311 | the same for every '='-free key at once |
| Environment.GetProcessEnv | internal/pkg/runtime/launcher/oci/process_linux.go:253-311 | the loops visit every runtime key exactly once; the result is ProcessEnv for that order and reads ExpectedEnvValue for every key |
| ProcessArgs.GetProcessArgs | internal/pkg/runtime/launcher/oci/process_linux.go:123-140 | a process name replaces ENTRYPOINT and suppresses CMD; explicit args are appended, else CMD when there is no process name |
| ProcessArgs.GetProcessArgsOverrides | internal/pkg/runtime/launcher/oci/process_linux.go:123-140 | with explicit args the image CMD is irrelevant; with a process name the whole image config is |
| ProcessArgs.GetProcessArgsExamples | internal/pkg/runtime/launcher/oci/process_linux.go:126-137 | the image defaults give ENTRYPOINT+CMD; a process name alone gives just that name |
| ProcessArgs.ProcessArgsFor | internal/pkg/runtime/launcher/oci/process_linux.go:85-100 | native SIF uses the action script args (its error wrapped); else the shell action gets exactly ["/bin/sh", "-c", ociShellScript]; else getProcessArgs |
| ProcessArgs.ProcessCwd | internal/pkg/runtime/launcher/oci/process_linux.go:145-151 | the requested directory when non-empty, else the home destination |
| OciProcess.RuntimeEnvOf | internal/pkg/runtime/launcher/oci/process_linux.go:42-66 | rtEnv or the env-file error; specified by ProcessOfEnvFileErrors and RuntimeEnvKeysEqualsFree |
| OciProcess.ProcessOf | internal/pkg/runtime/launcher/oci/process_linux.go:39-113 | getProcess's outcome for a given order; specified by ProcessOfEnvFileErrors, ProcessOfLaterErrors, ProcessOfFields, FlagEnvWins and FlagPathWins |
| OciProcess.GetProcess | internal/pkg/runtime/launcher/oci/process_linux.go:39-113 | the layered, imperative computation equals ProcessOf for the iteration order taken, which visits every rtEnv key once |
| OciProcess.ProcessOfEnvFileErrors | internal/pkg/runtime/launcher/oci/process_linux.go:53-59 | an unreadable or invalid env file aborts with its error, and only a configured env file can fail |
| OciProcess.ProcessOfLaterErrors | internal/pkg/runtime/launcher/oci/process_linux.go:80-92 | then a capability read failure comes first, then a native action-script failure; nothing else fails |
| OciProcess.ProcessOfFields | internal/pkg/runtime/launcher/oci/process_linux.go:68-110 | a successful result has the given user, the terminal flag, NoNewPrivileges == NoPrivs, the cwd rule, the args switch, exactly getProcessCapabilities' sets, and exactly getProcessEnv's list over rtEnv |
| OciProcess.FlagEnvWins | internal/pkg/runtime/launcher/oci/process_linux.go:60-61 | a non-special --env key ends up with its --env value in the process, except HOME with no image user |
| OciProcess.RuntimeEnvKeysEqualsFree | internal/pkg/runtime/launcher/oci/process_linux.go:42-66 | rtEnv's keys hold no '=' when the --env keys hold none |
| OciProcess.FlagPathWins | internal/pkg/runtime/launcher/oci/process_linux.go:60-61 | a non-empty --env PATH is the process PATH, for every iteration order, when no APPEND_PATH or PREPEND_PATH is supplied |
| Namespaces.MinimalSpec | internal/pkg/runtime/launcher/oci/spec_linux.go:36-39 | the spec carries the given runtime-spec version |
| Namespaces.MinimalSpecDefaults | internal/pkg/runtime/launcher/oci/spec_linux.go:21-62 | namespaces exactly [IPC, PID, Mount]; args ["sh"], cwd "/", terminal, one PATH entry; no mounts; writable "rootfs" root; addNamespaces then keeps the list duplicate-free |
| Namespaces.MutableSpec.AppendNamespace | internal/pkg/runtime/launcher/oci/spec_linux.go:74-77 | the namespace is appended to the spec's list and nothing else changes |
| Namespaces.NamespacesAfter | internal/pkg/runtime/launcher/oci/spec_linux.go:66-108 | addNamespaces' list and error; specified by NamespacesAfterAppends, -Membership, -RedundantFlags and NamespacesFromDefaults |
| Namespaces.MutableSpec.AddNamespaces | internal/pkg/runtime/launcher/oci/spec_linux.go:66-108 | the spec's list and the error become NamespacesAfter of the old list; nothing else in the spec changes |
| Namespaces.NamespacesAfterAppends | internal/pkg/runtime/launcher/oci/spec_linux.go:73-105 | the old list is kept as a prefix; only Network, User and UTS are appended, each at most once and in that order |
| Namespaces.NamespacesAfterMembership | internal/pkg/runtime/launcher/oci/spec_linux.go:84-105 | error if and only if the User flag is set and the uid lookup fails; Network added if and only if requested; User if and only if requested and uid 0; UTS if and only if requested and no error |
| Namespaces.NamespacesAfterRedundantFlags | internal/pkg/runtime/launcher/oci/spec_linux.go:67-82 | the IPC and PID flags never change the outcome |
| Namespaces.NamespacesFromDefaults | internal/pkg/runtime/launcher/oci/spec_linux_test.go:50-58 | from the defaults, no duplicates, and the length is 3 plus one per namespace added |
| Namespaces.NamespacesTestTable | internal/pkg/runtime/launcher/oci/spec_linux_test.go:30-59 | the test table's expected lists, for a non-root caller |
| Images.UsageAndFormatConstants | pkg/image/image.go:27-56 | the usage flags are the distinct bits 1, 2, 4; the formats are 0x1000 to 0x1006 in order |
| Images.Filter | pkg/image/image.go:221-225 | the filter loop's result; specified by FilterMembership, FilterAppend, FilterFirst and FilterNone |
| Images.PartitionsFor | pkg/image/image.go:214-228 | getPartitions' result; GetPartitions is proved equal to it |
| Images.FilterMembership | pkg/image/image.go:221-225 | a partition is kept if and only if it allows some of the usage bits |
| Images.FilterAppend | pkg/image/image.go:221-225 | filtering distributes over concatenation, so image order is kept |
| Images.GetPartitions | pkg/image/image.go:214-228 | nothing when the image does not allow the usage; otherwise exactly the partitions allowing it, in order |
| Images.GetAllPartitions | pkg/image/image.go:231-233 | getPartitions with RootFs, Overlay and Data |
| Images.GetRootFsPartitions | pkg/image/image.go:249-251 | getPartitions with RootFs |
| Images.GetOverlayPartitions | pkg/image/image.go:254-256 | getPartitions with Overlay |
| Images.GetDataPartitions | pkg/image/image.go:259-261 | getPartitions with Data |
| Images.AllPartitionsUnion | pkg/image/image.go:231-233 | a partition is among all partitions if and only if it is a root filesystem, overlay or data partition |
| Images.FilterFirst | pkg/image/image.go:221-225 | the first kept partition is the image's first partition allowing the usage |
| Images.FilterNone | pkg/image/image.go:221-225 | nothing is kept if and only if no partition allows the usage |
| Images.GetRootFsPartition | pkg/image/image.go:237-245 | an error if and only if there is no root filesystem partition, else the first one |
| Images.RootFsPartitionIsFirst | pkg/image/image.go:237-245 | that partition is the first one allowing root filesystem use; there is none exactly when the image or every partition disallows it |
| Images.EncryptionOf | pkg/image/image.go:266-282 | the result is "", "encryptfs" or "gocryptfs" |
| Images.EncryptionOfFirstMatch | pkg/image/image.go:272-281 | "" if and only if no partition is encrypted; otherwise the first encrypted partition decides |
| Images.EncryptedRootFs | pkg/image/image.go:266-282 | the early-return scan equals EncryptionOf over the root filesystem partitions |
| Images.AuthorizedOutcome | pkg/image/image.go:156-171 | AuthorizedPath's result; specified by AuthorizedOutcomeAuthorized and AuthorizedOutcomeError |
| Images.AuthorizedOutcomeAuthorized | pkg/image/image.go:156-171 | authorized if and only if some path resolves to a string prefix of the image path and every earlier one resolves to a non-prefix; then no error |
| Images.AuthorizedOutcomeError | pkg/image/image.go:159-163 | an error if and only if some path fails to resolve before anything authorizes; then unauthorized |
| Images.AuthorizedPath | pkg/image/image.go:156-171 | the loop with break and early return equals AuthorizedOutcome |
| Images.AuthorizedPathNoComponentBoundary | pkg/image/image.go:165-168 | /data authorizes /database/x.sif: the match is a raw string prefix |

## Left out

- Host reads and foreign calls are inputs, not performed: `fakeroot.GetIDRange`, `os.Environ`, `os.LookupEnv`, `rootless.Getuid`, `term.IsTerminal`, `capabilities.GetProcessEffective`, `os.ReadFile`, `interpreter.EvaluateEnv`, `ep.ActionScriptArgs` and `filepath.EvalSymlinks`/`Clean`.
- `capabilities.Map`, `oci.DefaultCaps`, `env.ReadOnlyVars` and `specs.Version` are parameters, because their definitions are not part of this model.
- `capabilities.ToStrings` is folded into the effective-capability input, which is already a list of names.
- `mergeMap`, `generate.SetProcessEnv`, `capabilities.Split`, `capabilities.RemoveDuplicated` and `lo.Without` are not part of this model. The assumptions above stand in for them.
- Logging (`sylog`) is left out; it does not affect any result.
- getProcessCwd's error result is always nil, and getPartitions' error is always nil. Neither is modelled, and so the wrapping of that error in `EncryptedRootFs` and `GetRootFsPartition` cannot occur.
- Go's map iteration order is nondeterministic. It is modelled as a ghost `order` chosen by `:|`; the properties of the environment list about runtime-supplied keys are stated over key values, not entry order.
- `Init`, `ResolvePath`, `ReInit`, `lockSection`, `AuthorizedOwner` and `AuthorizedGroup` of `pkg/image/image.go` are left out: they are file I/O, locking and passwd/group lookups.
- `spec_linux_test.go` calls `addNamespaces` as if it returned a spec, while the function updates the spec in place and returns an error. Only its expected namespace lists are modelled (`Namespaces.NamespacesTestTable`).
- Environment.PrefixedEnvExamplesPrefixed: the test's concrete variables (FOO=bar, ABC=123) are stated for arbitrary '='-free keys and values instead. String literals that large are costly to verify, and the general statement implies the concrete one.
- Environment.GetProcessEnv: the per-key content is stated only when every runtime key is free of '='. A runtime key holding '=' would produce an entry whose key differs from it, and the model does not describe that case.
- OciProcess.FlagEnvWins: stated under the same condition, for the keys given with --env.
- Sizes and offsets of sections are unbounded naturals rather than uint64. No arithmetic is done on them. The ID-mapping fields are explicit 32-bit values, and no operation there wraps around.

## Findings

| source | as written | input that shows it | evidently intended | confidence | as-written member | corrected member |
|---|---|---|---|---|---|---|
| internal/pkg/runtime/launcher/oci/process_linux.go:172-174 | the sub-GID size check reports "subuid range size (%d) must be at least 65536" | sub-UID range size 65536, sub-GID range size 1000: the error blames the sub-UID range | the message names the sub-GID range | not executed | IdMap.GidRangeErrorNamesSubuid | IdMap.GetReverseUserMaps |
