/**
 * The image object's partition queries (pkg/image): image format
 * constants, partition usage flags, selection of partitions by usage, the
 * root filesystem partition, its encryption type, and the check that an
 * image lives under an authorized path.
 */
module Images {
  import opened Wrappers
  import opened Errors
  import opened StringUtil
  import opened RuntimeSpec

  /** Image formats, numbered consecutively from 0x1000. */
  const SquashFs: int := 0x1000
  const Ext3: int := SquashFs + 1
  const Sandbox: int := SquashFs + 2
  const Sif: int := SquashFs + 3
  const EncryptSquashFs: int := SquashFs + 4
  const Raw: int := SquashFs + 5
  const GocryptfsSquashFs: int := SquashFs + 6

  /** Usage is an 8-bit flag set. */
  type Usage = bv8

  /** Usable as root filesystem. */
  const RootFsUsage: Usage := 1
  /** Usable as overlay. */
  const OverlayUsage: Usage := 2
  /** Usable as data. */
  const DataUsage: Usage := 4

  /** Two flag sets share a bit. */
  predicate Intersects(a: Usage, b: Usage) {
    a & b != 0
  }

  /** The name of the root filesystem partition. */
  const RootFs := "!__rootfs__!"

  /** A data section of an image: where it is, what it holds, and what it may be used for. */
  datatype Section = Section(name: string, size: nat, offset: nat, id: Uint32, sectionType: Uint32, allowedUsage: Usage)

  /** The image fields the partition queries read. */
  datatype Image = Image(partitions: seq<Section>, path: string, usage: Usage)

  /** The usage flags are three distinct single bits; the formats run from 0x1000 to 0x1006. */
  lemma UsageAndFormatConstants()
    ensures RootFsUsage == 1 && OverlayUsage == 2 && DataUsage == 4
    ensures !Intersects(RootFsUsage, OverlayUsage) && !Intersects(RootFsUsage, DataUsage) && !Intersects(OverlayUsage, DataUsage)
    ensures RootFsUsage | OverlayUsage | DataUsage == 7
    ensures [SquashFs, Ext3, Sandbox, Sif, EncryptSquashFs, Raw, GocryptfsSquashFs]
         == [0x1000, 0x1001, 0x1002, 0x1003, 0x1004, 0x1005, 0x1006]
  {
  }

  // ---------------------------------------------------------------------
  // getPartitions and its wrappers

  /** The partitions allowing some bit of `usage`, in image order. */
  function Filter(parts: seq<Section>, usage: Usage): seq<Section> {
    if parts == [] then []
    else
      var init := Filter(parts[..|parts| - 1], usage);
      if Intersects(parts[|parts| - 1].allowedUsage, usage) then init + [parts[|parts| - 1]] else init
  }

  /** Filtering keeps exactly the partitions with an allowed bit of `usage`. */
  lemma {:induction false} FilterMembership(parts: seq<Section>, usage: Usage, p: Section)
    ensures p in Filter(parts, usage) <==> p in parts && Intersects(p.allowedUsage, usage)
  {
    if parts != [] {
      var init := parts[..|parts| - 1];
      FilterMembership(init, usage, p);
      assert parts == init + [parts[|parts| - 1]];
    }
  }

  /** Filtering distributes over concatenation, so the image order is kept. */
  lemma {:induction false} FilterAppend(a: seq<Section>, b: seq<Section>, usage: Usage)
    ensures Filter(a + b, usage) == Filter(a, usage) + Filter(b, usage)
  {
    if b == [] {
      assert a + b == a;
    } else {
      var binit := b[..|b| - 1];
      assert (a + b)[..|a + b| - 1] == a + binit;
      FilterAppend(a, binit, usage);
    }
  }

  /** What getPartitions returns: nothing unless the image itself allows `usage`, else the filtered partitions. */
  function PartitionsFor(img: Image, usage: Usage): seq<Section> {
    if !Intersects(img.usage, usage) then [] else Filter(img.partitions, usage)
  }

  /** getPartitions: the gate on the image usage, then the filter loop. Its error is always nil. */
  method GetPartitions(img: Image, usage: Usage) returns (sections: seq<Section>)
    ensures sections == PartitionsFor(img, usage)
    ensures !Intersects(img.usage, usage) ==> sections == []
    ensures forall p :: p in sections <==> Intersects(img.usage, usage) && p in img.partitions && Intersects(p.allowedUsage, usage)
  {
    sections := [];
    if !Intersects(img.usage, usage) {
      return;
    }
    for i := 0 to |img.partitions|
      invariant sections == Filter(img.partitions[..i], usage)
    {
      assert img.partitions[..i + 1][..i] == img.partitions[..i];
      var p := img.partitions[i];
      if Intersects(p.allowedUsage, usage) {
        sections := sections + [p];
      }
    }
    assert img.partitions[..|img.partitions|] == img.partitions;
    forall p ensures p in sections <==> Intersects(img.usage, usage) && p in img.partitions && Intersects(p.allowedUsage, usage) {
      FilterMembership(img.partitions, usage, p);
    }
  }

  /** GetAllPartitions: partitions usable in any of the three ways. */
  method GetAllPartitions(img: Image) returns (sections: seq<Section>)
    ensures sections == PartitionsFor(img, RootFsUsage | OverlayUsage | DataUsage)
  {
    sections := GetPartitions(img, RootFsUsage | OverlayUsage | DataUsage);
  }

  /** GetRootFsPartitions: partitions usable as root filesystem. */
  method GetRootFsPartitions(img: Image) returns (sections: seq<Section>)
    ensures sections == PartitionsFor(img, RootFsUsage)
  {
    sections := GetPartitions(img, RootFsUsage);
  }

  /** GetOverlayPartitions: partitions usable as overlay. */
  method GetOverlayPartitions(img: Image) returns (sections: seq<Section>)
    ensures sections == PartitionsFor(img, OverlayUsage)
  {
    sections := GetPartitions(img, OverlayUsage);
  }

  /** GetDataPartitions: partitions usable as data. */
  method GetDataPartitions(img: Image) returns (sections: seq<Section>)
    ensures sections == PartitionsFor(img, DataUsage)
  {
    sections := GetPartitions(img, DataUsage);
  }

  /** A partition is among all partitions iff it is a root filesystem, overlay or data partition. */
  lemma AllPartitionsUnion(img: Image, p: Section)
    requires Intersects(img.usage, RootFsUsage | OverlayUsage | DataUsage)
    ensures p in PartitionsFor(img, RootFsUsage | OverlayUsage | DataUsage) <==>
      p in img.partitions && (Intersects(p.allowedUsage, RootFsUsage) || Intersects(p.allowedUsage, OverlayUsage) || Intersects(p.allowedUsage, DataUsage))
  {
    FilterMembership(img.partitions, RootFsUsage | OverlayUsage | DataUsage, p);
    var u := p.allowedUsage;
    assert u & (RootFsUsage | OverlayUsage | DataUsage) == (u & RootFsUsage) | (u & OverlayUsage) | (u & DataUsage);
  }

  /** The first partition Filter keeps is the first partition of the image allowing the usage. */
  lemma {:induction false} FilterFirst(parts: seq<Section>, usage: Usage)
    requires Filter(parts, usage) != []
    ensures exists i :: FirstAllowing(parts, usage, i) && parts[i] == Filter(parts, usage)[0]
    decreases |parts|
  {
    var head, rest := [parts[0]], parts[1..];
    assert parts == head + rest;
    FilterAppend(head, rest, usage);
    assert head[..0] == [];
    if Intersects(parts[0].allowedUsage, usage) {
      assert Filter(head, usage) == head;
      assert FirstAllowing(parts, usage, 0);
    } else {
      assert Filter(head, usage) == [];
      FilterFirst(rest, usage);
      var i :| FirstAllowing(rest, usage, i) && rest[i] == Filter(rest, usage)[0];
      assert forall j :: 0 < j <= i + 1 ==> parts[j] == rest[j - 1];
      assert FirstAllowing(parts, usage, i + 1);
    }
  }

  /** parts[i] is the first partition allowing some bit of `usage`. */
  predicate FirstAllowing(parts: seq<Section>, usage: Usage, i: int) {
    && 0 <= i < |parts|
    && Intersects(parts[i].allowedUsage, usage)
    && forall j :: 0 <= j < i ==> !Intersects(parts[j].allowedUsage, usage)
  }

  /** Filter keeps nothing exactly when no partition allows the usage. */
  lemma {:induction false} FilterNone(parts: seq<Section>, usage: Usage)
    ensures Filter(parts, usage) == [] <==> forall j :: 0 <= j < |parts| ==> !Intersects(parts[j].allowedUsage, usage)
  {
    if parts != [] {
      var init := parts[..|parts| - 1];
      FilterNone(init, usage);
      assert forall j :: 0 <= j < |init| ==> init[j] == parts[j];
    }
  }

  /** GetRootFsPartition: the first root filesystem partition, or an error when there is none. */
  method GetRootFsPartition(img: Image) returns (r: Result<Section, Error>)
    ensures r.Failure? <==> PartitionsFor(img, RootFsUsage) == []
    ensures r.Failure? ==> r.error == NoRootFilesystem
    ensures r.Success? ==> r.value == PartitionsFor(img, RootFsUsage)[0]
  {
    var partitions := GetRootFsPartitions(img);
    if |partitions| == 0 {
      return Failure(NoRootFilesystem);
    }
    return Success(partitions[0]);
  }

  /**
   * The root filesystem partition is the image's first partition allowing
   * root filesystem use, and there is none exactly when the image does not
   * allow that use or no partition does.
   */
  lemma RootFsPartitionIsFirst(img: Image)
    ensures PartitionsFor(img, RootFsUsage) == [] <==>
      !Intersects(img.usage, RootFsUsage) || forall j :: 0 <= j < |img.partitions| ==> !Intersects(img.partitions[j].allowedUsage, RootFsUsage)
    ensures PartitionsFor(img, RootFsUsage) != [] ==>
      exists i :: FirstAllowing(img.partitions, RootFsUsage, i) && img.partitions[i] == PartitionsFor(img, RootFsUsage)[0]
  {
    FilterNone(img.partitions, RootFsUsage);
    if PartitionsFor(img, RootFsUsage) != [] {
      FilterFirst(img.partitions, RootFsUsage);
    }
  }

  // ---------------------------------------------------------------------
  // EncryptedRootFs

  /** A section type that names an encrypted root filesystem. */
  predicate IsEncrypted(t: int) {
    t == EncryptSquashFs || t == GocryptfsSquashFs
  }

  /** The encryption type the scan reports for these root filesystem partitions. */
  function EncryptionOf(parts: seq<Section>): (e: string)
    ensures e == "" || e == "encryptfs" || e == "gocryptfs"
  {
    if parts == [] then ""
    else if parts[0].sectionType == EncryptSquashFs then "encryptfs"
    else if parts[0].sectionType == GocryptfsSquashFs then "gocryptfs"
    else EncryptionOf(parts[1..])
  }

  /**
   * The first encrypted partition decides: "encryptfs" for a device-mapper
   * encrypted one, "gocryptfs" for a gocryptfs one, "" when none is encrypted.
   */
  lemma {:induction false} EncryptionOfFirstMatch(parts: seq<Section>)
    ensures EncryptionOf(parts) == "" <==> forall j :: 0 <= j < |parts| ==> !IsEncrypted(parts[j].sectionType)
    ensures EncryptionOf(parts) != "" ==>
      exists i :: 0 <= i < |parts| && IsEncrypted(parts[i].sectionType)
        && (forall j :: 0 <= j < i ==> !IsEncrypted(parts[j].sectionType))
        && EncryptionOf(parts) == (if parts[i].sectionType == EncryptSquashFs then "encryptfs" else "gocryptfs")
  {
    if parts != [] && !IsEncrypted(parts[0].sectionType) {
      var rest := parts[1..];
      EncryptionOfFirstMatch(rest);
      assert forall j :: 0 < j < |parts| ==> parts[j] == rest[j - 1];
      if EncryptionOf(rest) != "" {
        var i :| 0 <= i < |rest| && IsEncrypted(rest[i].sectionType)
          && (forall j :: 0 <= j < i ==> !IsEncrypted(rest[j].sectionType))
          && EncryptionOf(rest) == (if rest[i].sectionType == EncryptSquashFs then "encryptfs" else "gocryptfs");
        assert parts[i + 1] == rest[i];
      }
    }
  }

  /** EncryptedRootFs: scans the root filesystem partitions and stops at the first encrypted one. */
  method EncryptedRootFs(img: Image) returns (encryptionType: string)
    ensures encryptionType == EncryptionOf(PartitionsFor(img, RootFsUsage))
  {
    var rootFsParts := GetRootFsPartitions(img);
    for i := 0 to |rootFsParts|
      invariant EncryptionOf(rootFsParts[i..]) == EncryptionOf(rootFsParts)
    {
      assert rootFsParts[i..][1..] == rootFsParts[i + 1..];
      var p := rootFsParts[i];
      if p.sectionType == EncryptSquashFs {
        return "encryptfs";
      }
      if p.sectionType == GocryptfsSquashFs {
        return "gocryptfs";
      }
    }
    return "";
  }

  // ---------------------------------------------------------------------
  // AuthorizedPath

  /**
   * The outcome of AuthorizedPath, scanning `paths` in order: the first
   * resolve error ends the scan unauthorized with that error; the first
   * resolved entry that is a string prefix of the image path authorizes.
   */
  function AuthorizedOutcome(dirname: string, paths: seq<string>, resolve: string -> Result<string, string>)
    : (bool, Option<Error>)
  {
    if paths == [] then (false, None)
    else
      match resolve(paths[0])
      case Failure(cause) => (false, Some(PathResolveFailed(paths[0], cause)))
      case Success(match_) =>
        if HasPrefix(dirname, match_) then (true, None) else AuthorizedOutcome(dirname, paths[1..], resolve)
  }

  /** Every path before position i resolves, to something that is not a prefix of `dirname`. */
  predicate PassedOver(dirname: string, paths: seq<string>, resolve: string -> Result<string, string>, i: int)
    requires 0 <= i <= |paths|
  {
    forall j :: 0 <= j < i ==> resolve(paths[j]).Success? && !HasPrefix(dirname, resolve(paths[j]).value)
  }

  /** Position i is where the scan stops authorized. */
  predicate AuthorizesAt(dirname: string, paths: seq<string>, resolve: string -> Result<string, string>, i: int) {
    && 0 <= i < |paths| && resolve(paths[i]).Success? && HasPrefix(dirname, resolve(paths[i]).value)
    && PassedOver(dirname, paths, resolve, i)
  }

  /** Position i is where the scan stops with a resolve error. */
  predicate FailsAt(dirname: string, paths: seq<string>, resolve: string -> Result<string, string>, i: int) {
    && 0 <= i < |paths| && resolve(paths[i]).Failure?
    && PassedOver(dirname, paths, resolve, i)
  }

  /** Moving past a rejected first path shifts every stopping position by one. */
  lemma PassedOverShift(dirname: string, paths: seq<string>, resolve: string -> Result<string, string>, i: nat)
    requires |paths| > 0 && resolve(paths[0]).Success? && !HasPrefix(dirname, resolve(paths[0]).value)
    requires i < |paths|
    ensures PassedOver(dirname, paths[1..], resolve, i) <==> PassedOver(dirname, paths, resolve, i + 1)
  {
    assert forall j :: 0 < j <= i ==> paths[j] == paths[1..][j - 1];
  }

  /**
   * AuthorizedPath is authorized exactly when some path resolves to a
   * string prefix of the image path and every earlier path resolves to one
   * that is not; then no error comes back.
   */
  lemma {:induction false} AuthorizedOutcomeAuthorized(dirname: string, paths: seq<string>, resolve: string -> Result<string, string>)
    ensures AuthorizedOutcome(dirname, paths, resolve).0 ==> AuthorizedOutcome(dirname, paths, resolve).1.None?
    ensures AuthorizedOutcome(dirname, paths, resolve).0 <==> exists i :: AuthorizesAt(dirname, paths, resolve, i)
  {
    if paths == [] {
    } else if resolve(paths[0]).Failure? {
    } else if HasPrefix(dirname, resolve(paths[0]).value) {
      assert AuthorizesAt(dirname, paths, resolve, 0);
    } else {
      var rest := paths[1..];
      AuthorizedOutcomeAuthorized(dirname, rest, resolve);
      if exists i :: AuthorizesAt(dirname, rest, resolve, i) {
        var i :| AuthorizesAt(dirname, rest, resolve, i);
        PassedOverShift(dirname, paths, resolve, i);
        assert AuthorizesAt(dirname, paths, resolve, i + 1);
      }
      forall i | AuthorizesAt(dirname, paths, resolve, i) ensures AuthorizesAt(dirname, rest, resolve, i - 1) {
        PassedOverShift(dirname, paths, resolve, i - 1);
      }
    }
  }

  /** AuthorizedPath returns an error exactly when some path fails to resolve before any earlier path authorizes. */
  lemma {:induction false} AuthorizedOutcomeError(dirname: string, paths: seq<string>, resolve: string -> Result<string, string>)
    ensures AuthorizedOutcome(dirname, paths, resolve).1.Some? <==> exists i :: FailsAt(dirname, paths, resolve, i)
    ensures AuthorizedOutcome(dirname, paths, resolve).1.Some? ==> !AuthorizedOutcome(dirname, paths, resolve).0
  {
    if paths == [] {
    } else if resolve(paths[0]).Failure? {
      assert FailsAt(dirname, paths, resolve, 0);
    } else if HasPrefix(dirname, resolve(paths[0]).value) {
    } else {
      var rest := paths[1..];
      AuthorizedOutcomeError(dirname, rest, resolve);
      if exists i :: FailsAt(dirname, rest, resolve, i) {
        var i :| FailsAt(dirname, rest, resolve, i);
        PassedOverShift(dirname, paths, resolve, i);
        assert FailsAt(dirname, paths, resolve, i + 1);
      }
      forall i | FailsAt(dirname, paths, resolve, i) ensures FailsAt(dirname, rest, resolve, i - 1) {
        PassedOverShift(dirname, paths, resolve, i - 1);
      }
    }
  }

  /** AuthorizedPath: resolves each path in turn and stops at the first that prefixes the image path. */
  method AuthorizedPath(img: Image, paths: seq<string>, resolve: string -> Result<string, string>)
    returns (authorized: bool, err: Option<Error>)
    ensures (authorized, err) == AuthorizedOutcome(img.path, paths, resolve)
  {
    authorized := false;
    var dirname := img.path;
    for i := 0 to |paths|
      invariant AuthorizedOutcome(dirname, paths[i..], resolve) == AuthorizedOutcome(dirname, paths, resolve)
    {
      assert paths[i..][1..] == paths[i + 1..];
      var path := paths[i];
      var match_ := resolve(path);
      if match_.Failure? {
        return authorized, Some(PathResolveFailed(path, match_.error));
      }
      if HasPrefix(dirname, match_.value) {
        authorized := true;
        break;
      }
    }
    return authorized, None;
  }

  /** The prefix test does not respect path components: /data authorizes /database/x.sif. */
  lemma AuthorizedPathNoComponentBoundary(resolve: string -> Result<string, string>)
    requires resolve("/data") == Success("/data")
    ensures AuthorizedOutcome("/database/x.sif", ["/data"], resolve) == (true, None)
  {
    assert "/database/x.sif"[..|"/data"|] == "/data";
  }
}
