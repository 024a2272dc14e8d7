/**
 * Capability resolution of the OCI launcher (getBaseCapabilities and
 * getProcessCapabilities): a base list chosen by the privilege flags, plus
 * the known requested capabilities, duplicates removed, minus the known
 * dropped ones; then the five sets depending on whether the target is root.
 */
module Capabilities {
  import opened Wrappers
  import opened Errors
  import opened RuntimeSpec
  import opened LauncherTypes
  import opened Sequences

  /** capabilities.Split: the known names in their order, and the ignored (unknown) ones. */
  function Split(names: seq<string>, known: set<string>): (r: (seq<string>, seq<string>))
    ensures forall x :: x in r.0 <==> x in names && x in known
    ensures forall x :: x in r.1 <==> x in names && x !in known
    ensures |r.0| + |r.1| == |names|
  {
    if names == [] then ([], [])
    else
      var rest := Split(names[1..], known);
      if names[0] in known then ([names[0]] + rest.0, rest.1) else (rest.0, [names[0]] + rest.1)
  }

  /** Splitting a concatenation splits each part. */
  lemma {:induction false} SplitAppend(a: seq<string>, b: seq<string>, known: set<string>)
    ensures Split(a + b, known) == (Split(a, known).0 + Split(b, known).0, Split(a, known).1 + Split(b, known).1)
  {
    if a == [] {
      assert a + b == b;
      assert [] + Split(b, known).0 == Split(b, known).0 && [] + Split(b, known).1 == Split(b, known).1;
    } else {
      assert (a + b)[0] == a[0] && (a + b)[1..] == a[1..] + b;
      SplitAppend(a[1..], b, known);
      var ra, rb := Split(a[1..], known), Split(b, known);
      assert ([a[0]] + ra.0) + rb.0 == [a[0]] + (ra.0 + rb.0);
      assert ([a[0]] + ra.1) + rb.1 == [a[0]] + (ra.1 + rb.1);
    }
  }

  /** capabilities.RemoveDuplicated: keeps the first occurrence of every name. */
  function RemoveDuplicated(s: seq<string>): (r: seq<string>)
    ensures forall x :: x in r <==> x in s
    ensures NoDuplicates(r)
    ensures |r| <= |s|
    ensures NoDuplicates(s) ==> r == s
  {
    if s == [] then []
    else
      var init := s[..|s| - 1];
      var r := RemoveDuplicated(init);
      assert s == init + [s[|s| - 1]];
      if s[|s| - 1] in r then r else r + [s[|s| - 1]]
  }

  /** lo.Without: the elements of `s` that are not in `drop`, in order. */
  function Without(s: seq<string>, drop: seq<string>): (r: seq<string>)
    ensures forall x :: x in r <==> x in s && x !in drop
    ensures NoDuplicates(s) ==> NoDuplicates(r)
    ensures |r| <= |s|
  {
    if s == [] then []
    else
      var rest := Without(s[1..], drop);
      if s[0] in drop then rest else [s[0]] + rest
  }

  /** getBaseCapabilities: none under NoPrivs, the caller's effective set under KeepPrivs, else the defaults. */
  function BaseCapabilities(cfg: Options, processEffective: Result<seq<string>, string>, defaultCaps: seq<string>)
    : Result<seq<string>, Error>
  {
    if cfg.noPrivs then Success([])
    else if cfg.keepPrivs then
      match processEffective
      case Success(c) => Success(c)
      case Failure(cause) => Failure(CapabilityLookupFailed(cause))
    else Success(defaultCaps)
  }

  /** The known --add-caps names. */
  function KnownAdd(cfg: Options, known: set<string>): seq<string> {
    Split(cfg.addCaps, known).0
  }

  /** The known --drop-caps names. */
  function KnownDrop(cfg: Options, known: set<string>): seq<string> {
    Split(cfg.dropCaps, known).0
  }

  /** The bounding list: base plus known added names, duplicates removed, known dropped names removed. */
  function BoundingCaps(base: seq<string>, cfg: Options, known: set<string>): seq<string> {
    Without(RemoveDuplicated(base + KnownAdd(cfg, known)), KnownDrop(cfg, known))
  }

  /** The explicitly requested list: known added names that are not dropped. */
  function ExplicitCaps(cfg: Options, known: set<string>): seq<string> {
    Without(KnownAdd(cfg, known), KnownDrop(cfg, known))
  }

  /** getProcessCapabilities */
  function ProcessCapabilities(cfg: Options, targetUid: Uint32, processEffective: Result<seq<string>, string>, tables: Tables)
    : Result<LinuxCapabilities, Error>
  {
    match BaseCapabilities(cfg, processEffective, tables.defaultCaps)
    case Failure(e) => Failure(e)
    case Success(base) =>
      var caps := BoundingCaps(base, cfg, tables.knownCaps);
      if targetUid == 0 then
        Success(LinuxCapabilities(bounding := caps, effective := caps, inheritable := [], permitted := caps, ambient := []))
      else
        var explicit := ExplicitCaps(cfg, tables.knownCaps);
        Success(LinuxCapabilities(bounding := caps, effective := explicit, inheritable := explicit, permitted := explicit, ambient := explicit))
  }

  /** Only reading the caller's effective set can fail, and only under KeepPrivs without NoPrivs. */
  lemma ProcessCapabilitiesFailure(cfg: Options, targetUid: Uint32, processEffective: Result<seq<string>, string>, tables: Tables)
    ensures var r := ProcessCapabilities(cfg, targetUid, processEffective, tables);
      && (r.Failure? <==> !cfg.noPrivs && cfg.keepPrivs && processEffective.Failure?)
      && (r.Failure? ==> r.error == CapabilityLookupFailed(processEffective.error))
  {
  }

  /** The base: [] under NoPrivs, else the effective set under KeepPrivs, else the defaults; the bounding set is built from it. */
  lemma ProcessCapabilitiesBounding(cfg: Options, targetUid: Uint32, processEffective: Result<seq<string>, string>, tables: Tables)
    requires ProcessCapabilities(cfg, targetUid, processEffective, tables).Success?
    ensures var base := if cfg.noPrivs then [] else if cfg.keepPrivs then processEffective.value else tables.defaultCaps;
      ProcessCapabilities(cfg, targetUid, processEffective, tables).value.bounding == BoundingCaps(base, cfg, tables.knownCaps)
  {
  }

  /** Root in the container: permitted == effective == bounding, inheritable and ambient empty. */
  lemma ProcessCapabilitiesRoot(cfg: Options, processEffective: Result<seq<string>, string>, tables: Tables)
    requires ProcessCapabilities(cfg, 0, processEffective, tables).Success?
    ensures var c := ProcessCapabilities(cfg, 0, processEffective, tables).value;
      c.permitted == c.effective == c.bounding && c.inheritable == [] && c.ambient == []
  {
  }

  /** Non-root: permitted == effective == inheritable == ambient == the explicit added-minus-dropped names. */
  lemma ProcessCapabilitiesNonRoot(cfg: Options, targetUid: Uint32, processEffective: Result<seq<string>, string>, tables: Tables)
    requires targetUid != 0
    requires ProcessCapabilities(cfg, targetUid, processEffective, tables).Success?
    ensures var c := ProcessCapabilities(cfg, targetUid, processEffective, tables).value;
      && c.permitted == c.effective == c.inheritable == c.ambient
      && c.permitted == ExplicitCaps(cfg, tables.knownCaps)
      && (forall x :: x in c.permitted <==> x in cfg.addCaps && x in tables.knownCaps && !(x in cfg.dropCaps))
  {
  }

  /**
   * Set meaning of the bounding list: a name is in it iff it is in the base
   * or a known added name, and it is not a known dropped name; it has no
   * duplicates.
   */
  lemma BoundingCapsMembership(base: seq<string>, cfg: Options, known: set<string>, x: string)
    ensures x in BoundingCaps(base, cfg, known) <==>
      (x in base || (x in cfg.addCaps && x in known)) && !(x in cfg.dropCaps && x in known)
    ensures NoDuplicates(BoundingCaps(base, cfg, known))
  {
  }

  /**
   * The invariants of the five sets: a dropped known name is in none of
   * them; every set lies within bounding; effective within permitted;
   * ambient within permitted and inheritable; every known added name that is
   * not dropped is in bounding.
   */
  lemma CapabilitySetInvariants(cfg: Options, targetUid: Uint32, processEffective: Result<seq<string>, string>, tables: Tables, x: string)
    requires ProcessCapabilities(cfg, targetUid, processEffective, tables).Success?
    ensures var c := ProcessCapabilities(cfg, targetUid, processEffective, tables).value;
      && (x in cfg.dropCaps && x in tables.knownCaps ==>
            x !in c.bounding && x !in c.effective && x !in c.inheritable && x !in c.permitted && x !in c.ambient)
      && (x in c.permitted || x in c.effective || x in c.inheritable || x in c.ambient ==> x in c.bounding)
      && (x in c.effective ==> x in c.permitted)
      && (x in c.ambient ==> x in c.permitted && x in c.inheritable)
      && (x in ExplicitCaps(cfg, tables.knownCaps) ==> x in c.bounding)
  {
    var base := if cfg.noPrivs then [] else if cfg.keepPrivs then processEffective.value else tables.defaultCaps;
    BoundingCapsMembership(base, cfg, tables.knownCaps, x);
  }

  /** All names in `extra` are unknown: its parts of Split are nothing and itself. */
  lemma {:induction false} SplitUnknown(extra: seq<string>, known: set<string>)
    requires forall x :: x in extra ==> x !in known
    ensures Split(extra, known) == ([], extra)
  {
    if extra != [] {
      SplitUnknown(extra[1..], known);
      assert [extra[0]] + extra[1..] == extra;
    }
  }

  /**
   * Unknown names in --add-caps or --drop-caps change nothing: they are
   * ignored, never fatal. The extra names are inserted at any one position
   * of each list; repeated use covers any interleaving.
   */
  lemma UnknownNamesIgnored(cfg: Options, targetUid: Uint32, processEffective: Result<seq<string>, string>, tables: Tables,
                            addBefore: seq<string>, extraAdd: seq<string>, addAfter: seq<string>,
                            dropBefore: seq<string>, extraDrop: seq<string>, dropAfter: seq<string>)
    requires forall x :: x in extraAdd ==> x !in tables.knownCaps
    requires forall x :: x in extraDrop ==> x !in tables.knownCaps
    ensures ProcessCapabilities(cfg.(addCaps := addBefore + extraAdd + addAfter, dropCaps := dropBefore + extraDrop + dropAfter),
                                targetUid, processEffective, tables)
         == ProcessCapabilities(cfg.(addCaps := addBefore + addAfter, dropCaps := dropBefore + dropAfter), targetUid, processEffective, tables)
  {
    var with := cfg.(addCaps := addBefore + extraAdd + addAfter, dropCaps := dropBefore + extraDrop + dropAfter);
    var without := cfg.(addCaps := addBefore + addAfter, dropCaps := dropBefore + dropAfter);
    var known := tables.knownCaps;
    KnownNamesUnchanged(addBefore, extraAdd, addAfter, known);
    KnownNamesUnchanged(dropBefore, extraDrop, dropAfter, known);
    assert KnownAdd(with, known) == KnownAdd(without, known);
    assert KnownDrop(with, known) == KnownDrop(without, known);
    assert BaseCapabilities(with, processEffective, tables.defaultCaps) == BaseCapabilities(without, processEffective, tables.defaultCaps);
    assert ExplicitCaps(with, known) == ExplicitCaps(without, known);
    var base := BaseCapabilities(without, processEffective, tables.defaultCaps);
    if base.Success? {
      assert BoundingCaps(base.value, with, known) == BoundingCaps(base.value, without, known);
    }
  }

  /** Inserting unknown names anywhere in a list leaves its known names, in order, as they were. */
  lemma KnownNamesUnchanged(before: seq<string>, extra: seq<string>, after: seq<string>, known: set<string>)
    requires forall x :: x in extra ==> x !in known
    ensures Split(before + extra + after, known).0 == Split(before + after, known).0
  {
    SplitAppend(before + extra, after, known);
    SplitAppend(before, extra, known);
    SplitAppend(before, after, known);
    SplitUnknown(extra, known);
    assert Split(before, known).0 + [] == Split(before, known).0;
  }
}
