/**
 * Environment composition of the OCI launcher: the runtime layers that
 * getProcess stacks into rtEnv (defaultEnv, TERM, apptainerEnvMap,
 * envFileMap, --env, HOME), and getProcessEnv, which merges rtEnv into the
 * image's ENV list with special handling of PATH, APPEND_PATH, PREPEND_PATH
 * and LD_LIBRARY_PATH.
 */
module Environment {
  import opened Wrappers
  import opened Errors
  import opened StringUtil
  import opened Sequences

  /** env.ApptainerPrefix */
  const ApptainerPrefix := "APPTAINER_"
  /** env.ApptainerEnvPrefix: host variables carrying it are passed into the container without it. */
  const ApptainerEnvPrefix := "APPTAINERENV_"
  /** The library bind directory LD_LIBRARY_PATH must always hold. */
  const ApptainerLibs := "/.singularity.d/libs"

  /** The keys getProcessEnv intercepts instead of setting them directly. */
  const SpecialKeys: set<string> := {"PATH", "APPEND_PATH", "PREPEND_PATH", "LD_LIBRARY_PATH"}

  /** Every key of the set is free of '='. */
  predicate EqualsFreeKeys(keys: set<string>) {
    forall k :: k in keys ==> '=' !in k
  }

  /** m[k], if k is a key. */
  function MapGet(m: map<string, string>, k: string): Option<string> {
    if k in m then Some(m[k]) else None
  }

  // ---------------------------------------------------------------------
  // The KEY=VALUE list of the process spec

  /** The value of the first entry for `name` in a KEY=VALUE list. */
  function EnvLookup(env: seq<string>, name: string): Option<string> {
    if env == [] then None
    else if HasPrefix(env[0], name + "=") then Some(env[0][|name| + 1..])
    else EnvLookup(env[1..], name)
  }

  /**
   * generate.SetProcessEnv, taken as: replace the first entry for `name`,
   * or append "name=value" when there is none.
   */
  function SetEnv(env: seq<string>, name: string, value: string): (r: seq<string>)
    ensures EnvLookup(r, name) == Some(value)
    ensures |r| == |env| || |r| == |env| + 1
  {
    var entry := name + "=" + value;
    assert entry[..|name + "="|] == name + "=" && entry[|name| + 1..] == value;
    if env == [] then [entry]
    else if HasPrefix(env[0], name + "=") then [entry] + env[1..]
    else
      var rest := SetEnv(env[1..], name, value);
      assert ([env[0]] + rest)[1..] == rest;
      [env[0]] + rest
  }

  /** Setting one '='-free key leaves the value of every other '='-free key as it was. */
  lemma {:induction false} SetEnvOther(env: seq<string>, name: string, value: string, other: string)
    requires '=' !in name && '=' !in other && name != other
    ensures EnvLookup(SetEnv(env, name, value), other) == EnvLookup(env, other)
  {
    var entry := name + "=" + value;
    assert entry[..|name + "="|] == name + "=";
    if HasPrefix(entry, other + "=") {
      KeyPrefixUnique(entry, name, other);
    }
    if env == [] {
      assert EnvLookup([entry][1..], other) == None;
    } else if HasPrefix(env[0], name + "=") {
      if HasPrefix(env[0], other + "=") {
        KeyPrefixUnique(env[0], name, other);
      }
      assert ([entry] + env[1..])[1..] == env[1..];
    } else {
      var rest := SetEnv(env[1..], name, value);
      assert ([env[0]] + rest)[1..] == rest;
      SetEnvOther(env[1..], name, value, other);
    }
  }

  // ---------------------------------------------------------------------
  // Building a map from a list of entries (apptainerEnvMap, envFileMap)

  /**
   * The map a loop over `entries` fills when it stores every entry that
   * `parse` accepts: later entries overwrite earlier ones.
   */
  function EntriesToMap(entries: seq<string>, parse: string -> Option<(string, string)>): map<string, string> {
    if entries == [] then map[]
    else
      var m := EntriesToMap(entries[..|entries| - 1], parse);
      match parse(entries[|entries| - 1])
      case None => m
      case Some(kv) => m[kv.0 := kv.1]
  }

  /** A key is in the map iff some accepted entry has it. */
  lemma {:induction false} EntriesToMapKeys(entries: seq<string>, parse: string -> Option<(string, string)>, k: string)
    ensures k in EntriesToMap(entries, parse) <==>
      exists i :: 0 <= i < |entries| && parse(entries[i]).Some? && parse(entries[i]).value.0 == k
  {
    if entries != [] {
      var init := entries[..|entries| - 1];
      EntriesToMapKeys(init, parse, k);
      assert forall i :: 0 <= i < |init| ==> init[i] == entries[i];
    }
  }

  /** The last accepted entry for a key gives its value. */
  lemma {:induction false} EntriesToMapLastWins(entries: seq<string>, parse: string -> Option<(string, string)>, i: nat, k: string, v: string)
    requires i < |entries| && parse(entries[i]) == Some((k, v))
    requires forall j :: i < j < |entries| && parse(entries[j]).Some? ==> parse(entries[j]).value.0 != k
    ensures k in EntriesToMap(entries, parse) && EntriesToMap(entries, parse)[k] == v
  {
    var init := entries[..|entries| - 1];
    if i < |entries| - 1 {
      assert forall j :: 0 <= j < |init| ==> init[j] == entries[j];
      EntriesToMapLastWins(init, parse, i, k, v);
    }
  }

  /** When `parse` only yields '='-free keys, so does the map. */
  lemma {:induction false} EntriesToMapEqualsFree(entries: seq<string>, parse: string -> Option<(string, string)>)
    requires forall e :: parse(e).Some? ==> '=' !in parse(e).value.0
    ensures EqualsFreeKeys(EntriesToMap(entries, parse).Keys)
  {
    if entries != [] {
      EntriesToMapEqualsFree(entries[..|entries| - 1], parse);
    }
  }

  // ---------------------------------------------------------------------
  // The runtime layers

  /** defaultEnv: the two identity variables of the container. */
  function DefaultEnv(image: string, bundle: string): (m: map<string, string>)
    ensures EqualsFreeKeys(m.Keys)
  {
    map[ApptainerPrefix + "CONTAINER" := bundle, ApptainerPrefix + "NAME" := image]
  }

  /**
   * One step of apptainerEnvMap: an entry that starts with APPTAINERENV_ and
   * holds an '=' gives its key without the prefix and its value.
   */
  function PrefixedEntry(e: string): Option<(string, string)> {
    if !HasPrefix(e, ApptainerEnvPrefix) then None
    else
      match SplitEnv(e)
      case None => None
      case Some(kv) => Some((TrimPrefix(kv.0, ApptainerEnvPrefix), kv.1))
  }

  /** An entry is taken as (k, v) exactly when it reads APPTAINERENV_k=v with no '=' in k. */
  lemma PrefixedEntryMeaning(e: string, k: string, v: string)
    ensures PrefixedEntry(e) == Some((k, v)) <==> e == ApptainerEnvPrefix + k + "=" + v && '=' !in k
  {
    var p := ApptainerEnvPrefix;
    assert '=' !in p;
    if PrefixedEntry(e) == Some((k, v)) {
      var kv := SplitEnv(e).value;
      assert e[..|p|] == p;
      assert kv.0[..|p|] == e[..|p|];
      assert kv.0 == p + k;
      assert forall j :: 0 <= j < |k| ==> k[j] == kv.0[|p| + j];
    }
    if e == p + k + "=" + v && '=' !in k {
      assert '=' !in p + k;
      SplitEnvOfJoin(p + k, v);
      assert (p + k) + "=" + v == e;
      assert e[..|p|] == p;
      assert (p + k)[..|p|] == p && (p + k)[|p|..] == k;
    }
  }

  /** apptainerEnvMap's result, for the host environment `environ`. */
  function PrefixedEnv(environ: seq<string>): map<string, string> {
    EntriesToMap(environ, PrefixedEntry)
  }

  /** apptainerEnvMap: fills a map from the APPTAINERENV_ variables of the host environment. */
  method ApptainerEnvMap(environ: seq<string>) returns (apptainerEnv: map<string, string>)
    ensures apptainerEnv == PrefixedEnv(environ)
    ensures EqualsFreeKeys(apptainerEnv.Keys)
  {
    apptainerEnv := map[];
    for i := 0 to |environ|
      invariant apptainerEnv == PrefixedEnv(environ[..i])
    {
      assert environ[..i + 1][..i] == environ[..i];
      var envVar := environ[i];
      if !HasPrefix(envVar, ApptainerEnvPrefix) {
        continue;
      }
      var parts := SplitEnv(envVar);
      if parts.None? {
        continue;
      }
      var key := TrimPrefix(parts.value.0, ApptainerEnvPrefix);
      apptainerEnv := apptainerEnv[key := parts.value.1];
    }
    assert environ[..|environ|] == environ;
    forall e | PrefixedEntry(e).Some? ensures '=' !in PrefixedEntry(e).value.0 {
      PrefixedEntryMeaning(e, PrefixedEntry(e).value.0, PrefixedEntry(e).value.1);
    }
    EntriesToMapEqualsFree(environ, PrefixedEntry);
  }

  /**
   * What apptainerEnvMap means: k is a key iff some host variable reads
   * APPTAINERENV_k=v, and the last such variable gives the value.
   */
  lemma PrefixedEnvMeaning(environ: seq<string>, i: nat, k: string, v: string)
    requires i < |environ| && environ[i] == ApptainerEnvPrefix + k + "=" + v && '=' !in k
    requires forall j, v' :: i < j < |environ| ==> environ[j] != ApptainerEnvPrefix + k + "=" + v'
    ensures k in PrefixedEnv(environ) && PrefixedEnv(environ)[k] == v
  {
    PrefixedEntryMeaning(environ[i], k, v);
    forall j | i < j < |environ| && PrefixedEntry(environ[j]).Some?
      ensures PrefixedEntry(environ[j]).value.0 != k
    {
      var kv := PrefixedEntry(environ[j]).value;
      PrefixedEntryMeaning(environ[j], kv.0, kv.1);
    }
    EntriesToMapLastWins(environ, PrefixedEntry, i, k, v);
  }

  /** Host variables without the prefix, or without an '=', contribute nothing. */
  lemma PrefixedEnvIgnores(environ: seq<string>, extra: string)
    requires !HasPrefix(extra, ApptainerEnvPrefix) || '=' !in extra
    ensures PrefixedEnv(environ + [extra]) == PrefixedEnv(environ)
  {
    assert (environ + [extra])[..|environ|] == environ;
  }

  /** TestApptainerEnvMap, first cases: no variables, and a variable without the prefix. */
  lemma PrefixedEnvExamplesEmpty()
    ensures PrefixedEnv([]) == map[]
    ensures PrefixedEnv(["FOO=bar"]) == map[]
  {
    assert PrefixedEntry("FOO=bar") == None;
    assert ["FOO=bar"][..0] == [];
  }

  /**
   * TestApptainerEnvMap, remaining cases, for any '='-free keys: one
   * prefixed variable, and two of them (the second wins on a shared key).
   */
  lemma PrefixedEnvExamplesPrefixed(k1: string, v1: string, k2: string, v2: string)
    requires '=' !in k1 && '=' !in k2
    ensures PrefixedEnv([ApptainerEnvPrefix + k1 + "=" + v1]) == map[k1 := v1]
    ensures PrefixedEnv([ApptainerEnvPrefix + k1 + "=" + v1, ApptainerEnvPrefix + k2 + "=" + v2]) == map[k1 := v1][k2 := v2]
  {
    var e1, e2 := ApptainerEnvPrefix + k1 + "=" + v1, ApptainerEnvPrefix + k2 + "=" + v2;
    PrefixedEntryMeaning(e1, k1, v1);
    PrefixedEntryMeaning(e2, k2, v2);
    assert [e1][..0] == [];
    assert EntriesToMap([e1], PrefixedEntry) == EntriesToMap([], PrefixedEntry)[k1 := v1];
    assert [e1, e2][..1] == [e1];
  }

  /** One step of envFileMap: an entry with an '=' whose key is not read-only. */
  function EnvFileEntry(e: string, readOnlyVars: set<string>): Option<(string, string)> {
    match SplitEnv(e)
    case None => None
    case Some(kv) => if kv.0 in readOnlyVars then None else Some(kv)
  }

  /** An env-file entry is taken as (k, v) exactly when it reads k=v, with no '=' in k and k not read-only. */
  lemma EnvFileEntryMeaning(e: string, readOnlyVars: set<string>, k: string, v: string)
    ensures EnvFileEntry(e, readOnlyVars) == Some((k, v)) <==> e == k + "=" + v && '=' !in k && k !in readOnlyVars
  {
    if e == k + "=" + v && '=' !in k {
      SplitEnvOfJoin(k, v);
    }
  }

  /** The map envFileMap builds from the interpreter's output. */
  function EnvFileEnv(shellEnv: seq<string>, readOnlyVars: set<string>): map<string, string> {
    EntriesToMap(shellEnv, e => EnvFileEntry(e, readOnlyVars))
  }

  /** envFileMap's outcome: a read error, an evaluation error, or the map. */
  function EnvFileResult(file: string, content: Result<string, string>,
                         evaluate: string -> Result<seq<string>, string>, readOnlyVars: set<string>)
    : Result<map<string, string>, Error>
  {
    match content
    case Failure(cause) => Failure(EnvFileUnreadable(file, cause))
    case Success(text) =>
      match evaluate(text)
      case Failure(cause) => Failure(EnvFileInvalid(file, cause))
      case Success(shellEnv) => Success(EnvFileEnv(shellEnv, readOnlyVars))
  }

  /**
   * envFileMap: reads the file (its content is given), has the shell
   * interpreter evaluate it with an empty starting environment (its
   * evaluation is given), and fills a map from the resulting variables.
   */
  method EnvFileMap(file: string, content: Result<string, string>,
                    evaluate: string -> Result<seq<string>, string>, readOnlyVars: set<string>)
    returns (r: Result<map<string, string>, Error>)
    ensures r == EnvFileResult(file, content, evaluate, readOnlyVars)
    ensures r.Success? ==> r.value.Keys !! readOnlyVars && EqualsFreeKeys(r.value.Keys)
  {
    if content.Failure? {
      return Failure(EnvFileUnreadable(file, content.error));
    }
    var evaluated := evaluate(content.value);
    if evaluated.Failure? {
      return Failure(EnvFileInvalid(file, evaluated.error));
    }
    var shellEnv := evaluated.value;
    var envMap := map[];
    for i := 0 to |shellEnv|
      invariant envMap == EnvFileEnv(shellEnv[..i], readOnlyVars)
      invariant envMap.Keys !! readOnlyVars
    {
      assert shellEnv[..i + 1][..i] == shellEnv[..i];
      var parts := SplitEnv(shellEnv[i]);
      if parts.None? {
        continue;
      }
      if parts.value.0 in readOnlyVars {
        continue;
      }
      envMap := envMap[parts.value.0 := parts.value.1];
    }
    assert shellEnv[..|shellEnv|] == shellEnv;
    EntriesToMapEqualsFree(shellEnv, e => EnvFileEntry(e, readOnlyVars));
    return Success(envMap);
  }

  /** mergeMap, taken as a right-biased union: on a shared key the second map wins. */
  function MergeMap(a: map<string, string>, b: map<string, string>): map<string, string> {
    a + b
  }

  /** The TERM layer: TERM from the host, if it is set there. */
  function TermLayer(hostTerm: Option<string>): map<string, string> {
    if hostTerm.Some? then map["TERM" := hostTerm.value] else map[]
  }

  /**
   * rtEnv as getProcess builds it: defaults, then host TERM, then the
   * APPTAINERENV_ variables, then the env file, then --env; HOME forced to
   * the home destination when the image names no user.
   */
  function RuntimeEnv(defaults: map<string, string>, hostTerm: Option<string>, prefixed: map<string, string>,
                      fileEnv: map<string, string>, flagEnv: map<string, string>, imageUser: string, homeDest: string)
    : map<string, string>
  {
    var rtEnv := defaults;
    var rtEnv := if hostTerm.Some? then rtEnv["TERM" := hostTerm.value] else rtEnv;
    var rtEnv := MergeMap(rtEnv, prefixed);
    var rtEnv := MergeMap(rtEnv, fileEnv);
    var rtEnv := MergeMap(rtEnv, flagEnv);
    if imageUser == "" then rtEnv["HOME" := homeDest] else rtEnv
  }

  /** The value of `k` in the highest layer that has it. */
  function LayerLookup(layers: seq<map<string, string>>, k: string): Option<string> {
    if layers == [] then None
    else if k in layers[|layers| - 1] then Some(layers[|layers| - 1][k])
    else LayerLookup(layers[..|layers| - 1], k)
  }

  /**
   * Precedence of rtEnv: defaults < TERM < APPTAINERENV_ < env file < --env,
   * and HOME overrides every layer exactly when the image user is empty.
   */
  lemma RuntimeEnvPrecedence(defaults: map<string, string>, hostTerm: Option<string>, prefixed: map<string, string>,
                             fileEnv: map<string, string>, flagEnv: map<string, string>, imageUser: string, homeDest: string, k: string)
    ensures MapGet(RuntimeEnv(defaults, hostTerm, prefixed, fileEnv, flagEnv, imageUser, homeDest), k)
         == if k == "HOME" && imageUser == "" then Some(homeDest)
            else LayerLookup([defaults, TermLayer(hostTerm), prefixed, fileEnv, flagEnv], k)
  {
    var withTerm := if hostTerm.Some? then defaults["TERM" := hostTerm.value] else defaults;
    var m3 := MergeMap(withTerm, prefixed);
    var m4 := MergeMap(m3, fileEnv);
    var m5 := MergeMap(m4, flagEnv);
    var l1 := [defaults];
    var l2 := l1 + [TermLayer(hostTerm)];
    var l3 := l2 + [prefixed];
    var l4 := l3 + [fileEnv];
    assert l1[..0] == [];
    LayerLookupSnoc(l1, TermLayer(hostTerm), k);
    LayerLookupSnoc(l2, prefixed, k);
    LayerLookupSnoc(l3, fileEnv, k);
    LayerLookupSnoc(l4, flagEnv, k);
    MapGetMerge(withTerm, prefixed, k);
    MapGetMerge(m3, fileEnv, k);
    MapGetMerge(m4, flagEnv, k);
    assert LayerLookup(l2, k) == MapGet(withTerm, k);
    assert l4 + [flagEnv] == [defaults, TermLayer(hostTerm), prefixed, fileEnv, flagEnv];
  }

  /** Looking up in a merge: the second map first, then the first. */
  lemma MapGetMerge(a: map<string, string>, b: map<string, string>, k: string)
    ensures MapGet(MergeMap(a, b), k) == if k in b then Some(b[k]) else MapGet(a, k)
  {
  }

  /** Looking up through one more layer: that layer first, then the ones below. */
  lemma LayerLookupSnoc(layers: seq<map<string, string>>, top: map<string, string>, k: string)
    ensures LayerLookup(layers + [top], k) == if k in top then Some(top[k]) else LayerLookup(layers, k)
  {
    assert (layers + [top])[..|layers|] == layers;
  }

  /** When every layer has '='-free keys (the --env keys being the only ones not guaranteed), so does rtEnv. */
  lemma RuntimeEnvEqualsFree(defaults: map<string, string>, hostTerm: Option<string>, prefixed: map<string, string>,
                             fileEnv: map<string, string>, flagEnv: map<string, string>, imageUser: string, homeDest: string)
    requires EqualsFreeKeys(defaults.Keys) && EqualsFreeKeys(prefixed.Keys) && EqualsFreeKeys(fileEnv.Keys) && EqualsFreeKeys(flagEnv.Keys)
    ensures EqualsFreeKeys(RuntimeEnv(defaults, hostTerm, prefixed, fileEnv, flagEnv, imageUser, homeDest).Keys)
  {
  }

  // ---------------------------------------------------------------------
  // getProcessEnv

  /** The value of the last entry whose key is `key`, or "": what the image loop leaves in its local. */
  function LastValue(env: seq<string>, key: string): string {
    if env == [] then ""
    else
      match SplitEnv(env[|env| - 1])
      case Some(kv) => if kv.0 == key then kv.1 else LastValue(env[..|env| - 1], key)
      case None => LastValue(env[..|env| - 1], key)
  }

  /** rt[key] once the loop has visited `key`, else `fallback`. */
  ghost function Seen(rt: map<string, string>, visited: set<string>, key: string, fallback: string): string {
    if key in visited && key in rt then rt[key] else fallback
  }

  /** rt[key] if present, else `fallback`. */
  function RuntimeOr(rt: map<string, string>, key: string, fallback: string): string {
    if key in rt then rt[key] else fallback
  }

  /**
   * The PATH getProcessEnv computes: the runtime PATH if there is one, else
   * the image's; then ":" + APPEND_PATH after it and PREPEND_PATH + ":"
   * before it when those are non-empty.
   */
  function FinalPath(imageEnv: seq<string>, rt: map<string, string>): string {
    var path := RuntimeOr(rt, "PATH", LastValue(imageEnv, "PATH"));
    var appendPath := RuntimeOr(rt, "APPEND_PATH", "");
    var prependPath := RuntimeOr(rt, "PREPEND_PATH", "");
    var path := if appendPath != "" then path + ":" + appendPath else path;
    if prependPath != "" then prependPath + ":" + path else path
  }

  /**
   * The PATH rules: without APPEND_PATH and PREPEND_PATH the base PATH is
   * kept; a non-empty APPEND_PATH goes after it and a non-empty
   * PREPEND_PATH before everything, each joined with ':'.
   */
  lemma FinalPathRules(imageEnv: seq<string>, rt: map<string, string>)
    ensures var p := RuntimeOr(rt, "PATH", LastValue(imageEnv, "PATH"));
      var a := RuntimeOr(rt, "APPEND_PATH", "");
      var q := RuntimeOr(rt, "PREPEND_PATH", "");
      && (a == "" && q == "" ==> FinalPath(imageEnv, rt) == p)
      && (a != "" && q == "" ==> FinalPath(imageEnv, rt) == p + ":" + a)
      && (a == "" && q != "" ==> FinalPath(imageEnv, rt) == q + ":" + p)
      && (a != "" && q != "" ==> FinalPath(imageEnv, rt) == q + ":" + (p + ":" + a))
      && ("PATH" in rt ==> p == rt["PATH"])
  {
  }

  /** The library path getProcessEnv computes: the bind directory is appended unless it already occurs. */
  function FinalLdLibraryPath(imageEnv: seq<string>, rt: map<string, string>): (ld: string)
    ensures Contains(ld, ApptainerLibs)
  {
    var ld := RuntimeOr(rt, "LD_LIBRARY_PATH", LastValue(imageEnv, "LD_LIBRARY_PATH"));
    if Contains(ld, ApptainerLibs) then ld
    else
      var joined := ld + ":" + ApptainerLibs;
      if HasPrefix(joined, ":") then
        assert joined[1..] == (ld + ":")[1..] + ApptainerLibs;
        ContainsSuffix((ld + ":")[1..], ApptainerLibs);
        TrimPrefix(joined, ":")
      else
        assert joined == (ld + ":") + ApptainerLibs;
        ContainsSuffix(ld + ":", ApptainerLibs);
        TrimPrefix(joined, ":")
  }

  /** A library path that already holds the bind directory is kept as it is (a substring test: no de-duplication). */
  lemma FinalLdLibraryPathKeeps(imageEnv: seq<string>, rt: map<string, string>)
    ensures var ld := RuntimeOr(rt, "LD_LIBRARY_PATH", LastValue(imageEnv, "LD_LIBRARY_PATH"));
      && (Contains(ld, ApptainerLibs) ==> FinalLdLibraryPath(imageEnv, rt) == ld)
      && (ld == "" ==> FinalLdLibraryPath(imageEnv, rt) == ApptainerLibs)
  {
    var ld := RuntimeOr(rt, "LD_LIBRARY_PATH", LastValue(imageEnv, "LD_LIBRARY_PATH"));
    if ld == "" {
      assert !Contains(ld, ApptainerLibs);
      assert ld + ":" + ApptainerLibs == ":" + ApptainerLibs;
      assert (":" + ApptainerLibs)[1..] == ApptainerLibs;
    }
  }

  /**
   * A non-empty library path without the bind directory gets ":" and the
   * directory appended, and only a leading ':' of the path itself is then
   * trimmed.
   */
  lemma FinalLdLibraryPathAppends(imageEnv: seq<string>, rt: map<string, string>)
    ensures var ld := RuntimeOr(rt, "LD_LIBRARY_PATH", LastValue(imageEnv, "LD_LIBRARY_PATH"));
      && (ld != "" && !Contains(ld, ApptainerLibs) && ld[0] != ':' ==>
            FinalLdLibraryPath(imageEnv, rt) == ld + ":" + ApptainerLibs)
      && (ld != "" && !Contains(ld, ApptainerLibs) && ld[0] == ':' ==>
            FinalLdLibraryPath(imageEnv, rt) == ld[1..] + ":" + ApptainerLibs)
  {
    var ld := RuntimeOr(rt, "LD_LIBRARY_PATH", LastValue(imageEnv, "LD_LIBRARY_PATH"));
    if ld != "" && !Contains(ld, ApptainerLibs) {
      var joined := ld + ":" + ApptainerLibs;
      assert joined[0] == ld[0];
      if ld[0] == ':' {
        assert joined[..1] == ":";
        assert joined[1..] == ld[1..] + ":" + ApptainerLibs;
      } else {
        assert !HasPrefix(joined, ":");
      }
    }
  }

  /** The image list after the runtime loop has visited the keys of `order`, in that order. */
  function SetRuntimeVars(env: seq<string>, rt: map<string, string>, order: seq<string>): seq<string> {
    if order == [] then env
    else
      var k := order[|order| - 1];
      var e := SetRuntimeVars(env, rt, order[..|order| - 1]);
      if k in rt && k !in SpecialKeys then SetEnv(e, k, rt[k]) else e
  }

  /** Each visited, non-special runtime key has its runtime value; every other key keeps the image's. */
  lemma {:induction false} SetRuntimeVarsLookup(env: seq<string>, rt: map<string, string>, order: seq<string>, k: string)
    requires forall x :: x in order ==> '=' !in x
    requires '=' !in k
    ensures EnvLookup(SetRuntimeVars(env, rt, order), k)
         == if k in order && k in rt && k !in SpecialKeys then Some(rt[k]) else EnvLookup(env, k)
  {
    if order != [] {
      var last := order[|order| - 1];
      var init := order[..|order| - 1];
      assert order == init + [last];
      SetRuntimeVarsLookup(env, rt, init, k);
      if last != k && last in rt && last !in SpecialKeys {
        SetEnvOther(SetRuntimeVars(env, rt, init), last, rt[last], k);
      }
    }
  }

  /** `order` lists every key of `keys` exactly once: one possible order of Go's map iteration. */
  ghost predicate IsEnumeration(order: seq<string>, keys: set<string>) {
    && NoDuplicates(order)
    && (forall x :: x in order <==> x in keys)
  }

  /** getProcessEnv's result, when its loop visits the runtime keys in `order`. */
  function ProcessEnv(imageEnv: seq<string>, rt: map<string, string>, order: seq<string>): seq<string> {
    var env := SetRuntimeVars(imageEnv, rt, order);
    var path := FinalPath(imageEnv, rt);
    var env := if path != "" then SetEnv(env, "PATH", path) else env;
    SetEnv(env, "LD_LIBRARY_PATH", FinalLdLibraryPath(imageEnv, rt))
  }

  /**
   * What each '='-free key reads in the process environment, whatever the
   * iteration order: LD_LIBRARY_PATH always the computed library path; PATH
   * the computed path when that is non-empty, else the image's entry;
   * APPEND_PATH and PREPEND_PATH only what the image had; other runtime
   * keys their runtime value; all remaining keys the image's value.
   */
  function ExpectedEnvValue(imageEnv: seq<string>, rt: map<string, string>, k: string): Option<string> {
    if k == "LD_LIBRARY_PATH" then Some(FinalLdLibraryPath(imageEnv, rt))
    else if k == "PATH" then
      var path := FinalPath(imageEnv, rt);
      if path != "" then Some(path) else EnvLookup(imageEnv, "PATH")
    else if k in SpecialKeys then EnvLookup(imageEnv, k)
    else if k in rt then Some(rt[k])
    else EnvLookup(imageEnv, k)
  }

  /** The special keys hold no '='. */
  lemma SpecialKeysEqualsFree()
    ensures '=' !in "PATH" && '=' !in "LD_LIBRARY_PATH"
  {
  }

  /** getProcessEnv's result holds exactly ExpectedEnvValue, for every order the map loop may take. */
  lemma ProcessEnvLookup(imageEnv: seq<string>, rt: map<string, string>, order: seq<string>, k: string)
    requires EqualsFreeKeys(rt.Keys) && IsEnumeration(order, rt.Keys)
    requires '=' !in k
    ensures EnvLookup(ProcessEnv(imageEnv, rt, order), k) == ExpectedEnvValue(imageEnv, rt, k)
  {
    var env0 := SetRuntimeVars(imageEnv, rt, order);
    var path := FinalPath(imageEnv, rt);
    var env1 := if path != "" then SetEnv(env0, "PATH", path) else env0;
    var ld := FinalLdLibraryPath(imageEnv, rt);
    assert ProcessEnv(imageEnv, rt, order) == SetEnv(env1, "LD_LIBRARY_PATH", ld);
    if k != "LD_LIBRARY_PATH" {
      SpecialKeysEqualsFree();
      SetEnvOther(env1, "LD_LIBRARY_PATH", ld, k);
      if k == "PATH" {
        SetRuntimeVarsLookup(imageEnv, rt, order, k);
      } else {
        if path != "" {
          SetEnvOther(env0, "PATH", path, k);
        }
        assert EnvLookup(env1, k) == EnvLookup(env0, k);
        SetRuntimeVarsLookup(imageEnv, rt, order, k);
      }
    }
  }

  /** ProcessEnvLookup for every '='-free key at once. */
  lemma ProcessEnvContent(imageEnv: seq<string>, rt: map<string, string>, order: seq<string>)
    requires EqualsFreeKeys(rt.Keys) && IsEnumeration(order, rt.Keys)
    ensures forall k :: '=' !in k ==> EnvLookup(ProcessEnv(imageEnv, rt, order), k) == ExpectedEnvValue(imageEnv, rt, k)
  {
    forall k | '=' !in k ensures EnvLookup(ProcessEnv(imageEnv, rt, order), k) == ExpectedEnvValue(imageEnv, rt, k) {
      ProcessEnvLookup(imageEnv, rt, order, k);
    }
  }

  /**
   * getProcessEnv: starts from the image ENV list, takes PATH and
   * LD_LIBRARY_PATH from it, applies the runtime map in Go's (arbitrary) map
   * order, and finally sets PATH (if non-empty) and LD_LIBRARY_PATH. The
   * ghost `order` records the order the loop took.
   */
  method GetProcessEnv(imageEnv: seq<string>, runtimeEnv: map<string, string>)
    returns (env: seq<string>, ghost order: seq<string>)
    ensures IsEnumeration(order, runtimeEnv.Keys)
    ensures env == ProcessEnv(imageEnv, runtimeEnv, order)
    ensures EqualsFreeKeys(runtimeEnv.Keys) ==>
      forall k :: '=' !in k ==> EnvLookup(env, k) == ExpectedEnvValue(imageEnv, runtimeEnv, k)
  {
    var path, appendPath, prependPath, ldLibraryPath := "", "", "", "";
    env := imageEnv;

    for i := 0 to |imageEnv|
      invariant path == LastValue(imageEnv[..i], "PATH")
      invariant ldLibraryPath == LastValue(imageEnv[..i], "LD_LIBRARY_PATH")
    {
      assert imageEnv[..i + 1][..i] == imageEnv[..i];
      var e := SplitEnv(imageEnv[i]);
      if e.None? {
        continue;
      }
      if e.value.0 == "PATH" {
        path := e.value.1;
      }
      if e.value.0 == "LD_LIBRARY_PATH" {
        ldLibraryPath := e.value.1;
      }
    }
    assert imageEnv[..|imageEnv|] == imageEnv;
    ghost var imagePath, imageLd := path, ldLibraryPath;

    var remaining := runtimeEnv.Keys;
    ghost var visited: set<string> := {};
    order := [];
    while remaining != {}
      invariant visited !! remaining && visited + remaining == runtimeEnv.Keys
      invariant forall x :: x in order <==> x in visited
      invariant NoDuplicates(order)
      invariant env == SetRuntimeVars(imageEnv, runtimeEnv, order)
      invariant path == Seen(runtimeEnv, visited, "PATH", imagePath)
      invariant appendPath == Seen(runtimeEnv, visited, "APPEND_PATH", "")
      invariant prependPath == Seen(runtimeEnv, visited, "PREPEND_PATH", "")
      invariant ldLibraryPath == Seen(runtimeEnv, visited, "LD_LIBRARY_PATH", imageLd)
      decreases remaining
    {
      var k :| k in remaining;
      var v := runtimeEnv[k];
      ghost var next := order + [k];
      assert next[|next| - 1] == k && next[..|next| - 1] == order;
      if k == "PATH" {
        path := v;
      } else if k == "APPEND_PATH" {
        appendPath := v;
      } else if k == "PREPEND_PATH" {
        prependPath := v;
      } else if k == "LD_LIBRARY_PATH" {
        ldLibraryPath := v;
      } else {
        assert k !in SpecialKeys;
        env := SetEnv(env, k, v);
      }
      order := next;
      visited := visited + {k};
      remaining := remaining - {k};
    }
    assert visited == runtimeEnv.Keys;
    assert path == RuntimeOr(runtimeEnv, "PATH", LastValue(imageEnv, "PATH"));
    assert appendPath == RuntimeOr(runtimeEnv, "APPEND_PATH", "");
    assert prependPath == RuntimeOr(runtimeEnv, "PREPEND_PATH", "");
    assert ldLibraryPath == RuntimeOr(runtimeEnv, "LD_LIBRARY_PATH", LastValue(imageEnv, "LD_LIBRARY_PATH"));
    if appendPath != "" {
      path := path + ":" + appendPath;
    }
    if prependPath != "" {
      path := prependPath + ":" + path;
    }
    assert path == FinalPath(imageEnv, runtimeEnv);
    if path != "" {
      env := SetEnv(env, "PATH", path);
    }
    if !Contains(ldLibraryPath, ApptainerLibs) {
      ldLibraryPath := TrimPrefix(ldLibraryPath + ":" + ApptainerLibs, ":");
    }
    assert ldLibraryPath == FinalLdLibraryPath(imageEnv, runtimeEnv);
    env := SetEnv(env, "LD_LIBRARY_PATH", ldLibraryPath);

    if EqualsFreeKeys(runtimeEnv.Keys) {
      ProcessEnvContent(imageEnv, runtimeEnv, order);
    }
  }
}
