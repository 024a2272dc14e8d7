/**
 * Reverse ID mapping for a container started inside a fake-root user
 * namespace (getReverseUserMaps and reverseMapByRange).
 *
 * The launching user namespace maps the host user to ID 0 and its sub-ID
 * range to IDs 1..size. The mapping computed here makes the requested
 * target ID inside the container land on that ID 0, shifts the IDs below the
 * target up by one, and passes the rest of the range through.
 */
module IdMap {
  import opened Wrappers
  import opened Errors
  import opened RuntimeSpec

  /** Smallest sub-ID range accepted: 0..65535 must be mappable, so that 'nobody' is covered. */
  const MinRangeSize: nat := 65536

  /** The mapping for one ID kind (UID or GID): the body shared by both halves of reverseMapByRange. */
  function ReverseMap(target: Uint32, size: Uint32): (m: seq<LinuxIdMapping>)
    ensures |m| == if target < size then 3 else 2
  {
    if target < size then
      [ LinuxIdMapping(0, 1, target),
        LinuxIdMapping(target, 0, 1),
        LinuxIdMapping(target + 1, target + 1, size - target) ]
    else
      [ LinuxIdMapping(0, 1, size),
        LinuxIdMapping(target, 0, 1) ]
  }

  /** reverseMapByRange: the UID map from the sub-UID range, the GID map from the sub-GID range. */
  function ReverseMapByRange(targetUid: Uint32, targetGid: Uint32, subuidRange: LinuxIdMapping, subgidRange: LinuxIdMapping)
    : (maps: (seq<LinuxIdMapping>, seq<LinuxIdMapping>))
  {
    (ReverseMap(targetUid, subuidRange.size), ReverseMap(targetGid, subgidRange.size))
  }

  /** Container ID `c` lies in the container-side range of `e`. */
  predicate InContainerRange(e: LinuxIdMapping, c: int) {
    e.containerId <= c < e.containerId + e.size
  }

  /** The host ID a mapping table gives container ID `c`: the first entry whose range holds `c` decides. */
  function MapToHost(m: seq<LinuxIdMapping>, c: nat): Option<nat> {
    if m == [] then None
    else if InContainerRange(m[0], c) then Some(m[0].hostId + (c - m[0].containerId))
    else MapToHost(m[1..], c)
  }

  /**
   * Reference meaning of the reverse mapping, written per container ID:
   * the target is host 0, the IDs below both target and range size move up
   * by one, and when the target is inside the range the IDs after it up to
   * `size` stay where they are. Everything else is unmapped.
   */
  function HostOf(target: nat, size: nat, c: nat): Option<nat> {
    if c == target then Some(0)
    else if c < target && c < size then Some(c + 1)
    else if target < size && target < c <= size then Some(c)
    else None
  }

  /** The inverse of HostOf on host IDs 0..size. */
  function ContainerOf(target: nat, size: nat, h: nat): nat {
    if h == 0 then target
    else if h <= target && h <= size then h - 1
    else h
  }

  /** Sum of the entries' sizes: how many container IDs a table maps. */
  function TotalSize(m: seq<LinuxIdMapping>): nat {
    if m == [] then 0 else m[0].size + TotalSize(m[1..])
  }

  /** No two entries overlap on the container-ID axis. */
  predicate ContainerRangesDisjoint(m: seq<LinuxIdMapping>) {
    forall i, j :: 0 <= i < j < |m| ==>
      m[i].containerId + m[i].size <= m[j].containerId || m[j].containerId + m[j].size <= m[i].containerId
  }

  /** No two entries overlap on the host-ID axis. */
  predicate HostRangesDisjoint(m: seq<LinuxIdMapping>) {
    forall i, j :: 0 <= i < j < |m| ==>
      m[i].hostId + m[i].size <= m[j].hostId || m[j].hostId + m[j].size <= m[i].hostId
  }

  /** Inside the range: [(0, 1, target), (target, 0, 1), (target+1, target+1, size-target)]. */
  lemma ReverseMapInRange(target: Uint32, size: Uint32)
    requires target < size
    ensures ReverseMap(target, size)
         == [LinuxIdMapping(0, 1, target), LinuxIdMapping(target, 0, 1), LinuxIdMapping(target + 1, target + 1, size - target)]
    ensures target == 0 ==> ReverseMap(target, size)[0].size == 0
    ensures ReverseMap(target, size)[2].containerId + ReverseMap(target, size)[2].size == size + 1
  {
  }

  /** Outside the range: [(0, 1, size), (target, 0, 1)]. */
  lemma ReverseMapOutOfRange(target: Uint32, size: Uint32)
    requires size <= target
    ensures ReverseMap(target, size) == [LinuxIdMapping(0, 1, size), LinuxIdMapping(target, 0, 1)]
  {
  }

  /** The table means exactly HostOf, for every container ID. */
  lemma ReverseMapLookup(target: Uint32, size: Uint32, c: nat)
    ensures MapToHost(ReverseMap(target, size), c) == HostOf(target, size, c)
  {
    var m := ReverseMap(target, size);
    assert m[1..][1..] == m[2..];
    var e0, e1 := m[0], m[1];
    var rest := MapToHost(m[2..], c);
    if target < size {
      var e2 := m[2];
      assert m[2..][0] == e2 && m[2..][1..] == [];
      assert MapToHost(m[2..][1..], c) == None;
      assert rest == if InContainerRange(e2, c) then Some(e2.hostId + (c - e2.containerId)) else None;
    } else {
      assert m[2..] == [];
      assert rest == None;
    }
    assert MapToHost(m[1..], c) == if InContainerRange(e1, c) then Some(e1.hostId + (c - e1.containerId)) else rest;
    assert MapToHost(m, c) == if InContainerRange(e0, c) then Some(e0.hostId + (c - e0.containerId)) else MapToHost(m[1..], c);
  }

  /** The target is the only container ID that reaches host ID 0. */
  lemma ReverseMapRootIsTarget(target: Uint32, size: Uint32, c: nat)
    ensures MapToHost(ReverseMap(target, size), c) == Some(0) <==> c == target
  {
    ReverseMapLookup(target, size, c);
  }

  /** IDs below both the target and the range size move up by one. */
  lemma ReverseMapShiftsLowIds(target: Uint32, size: Uint32, c: nat)
    requires c < target && c < size
    ensures MapToHost(ReverseMap(target, size), c) == Some(c + 1)
  {
    ReverseMapLookup(target, size, c);
  }

  /** Inside the range, IDs after the target up to `size` inclusive are passed through. */
  lemma ReverseMapPassesThrough(target: Uint32, size: Uint32, c: nat)
    requires target < c <= size
    ensures MapToHost(ReverseMap(target, size), c) == Some(c)
  {
    ReverseMapLookup(target, size, c);
  }

  /** Distinct container IDs never share a host ID. */
  lemma ReverseMapInjective(target: Uint32, size: Uint32, c1: nat, c2: nat)
    requires MapToHost(ReverseMap(target, size), c1).Some?
    requires MapToHost(ReverseMap(target, size), c1) == MapToHost(ReverseMap(target, size), c2)
    ensures c1 == c2
  {
    ReverseMapLookup(target, size, c1);
    ReverseMapLookup(target, size, c2);
  }

  /** Every mapped container ID lands in host IDs 0..size, and ContainerOf recovers it. */
  lemma ReverseMapInverse(target: Uint32, size: Uint32, c: nat)
    requires MapToHost(ReverseMap(target, size), c).Some?
    ensures MapToHost(ReverseMap(target, size), c).value <= size
    ensures ContainerOf(target, size, MapToHost(ReverseMap(target, size), c).value) == c
  {
    ReverseMapLookup(target, size, c);
  }

  /** Every host ID 0..size is reached, from ContainerOf of it. */
  lemma ReverseMapOnto(target: Uint32, size: Uint32, h: nat)
    requires h <= size
    ensures MapToHost(ReverseMap(target, size), ContainerOf(target, size, h)) == Some(h)
  {
    ReverseMapLookup(target, size, ContainerOf(target, size, h));
  }

  /** Both branches: entries overlap neither on the container side nor on the host side. */
  lemma ReverseMapDisjoint(target: Uint32, size: Uint32)
    ensures ContainerRangesDisjoint(ReverseMap(target, size))
    ensures HostRangesDisjoint(ReverseMap(target, size))
  {
  }

  /** Both branches map size + 1 container IDs: the whole 0..size of the launching namespace. */
  lemma ReverseMapTotalSize(target: Uint32, size: Uint32)
    ensures TotalSize(ReverseMap(target, size)) == size + 1
  {
    var m := ReverseMap(target, size);
    assert m[1..][1..] == m[2..];
    if target < size {
      assert m[2..][1..] == [];
      assert TotalSize(m[2..]) == size - target;
    } else {
      assert m[2..] == [];
    }
    assert TotalSize(m[1..]) == 1 + TotalSize(m[2..]);
  }

  /** The UID table depends only on the target UID and the sub-UID size; the GID table likewise. */
  lemma ReverseMapByRangeIndependent(targetUid: Uint32, targetGid: Uint32, subuidRange: LinuxIdMapping, subgidRange: LinuxIdMapping)
    ensures ReverseMapByRange(targetUid, targetGid, subuidRange, subgidRange).0 == ReverseMap(targetUid, subuidRange.size)
    ensures ReverseMapByRange(targetUid, targetGid, subuidRange, subgidRange).1 == ReverseMap(targetGid, subgidRange.size)
  {
  }

  /** One size check of getReverseUserMaps: the looked-up range, or the error naming `kind`. */
  function CheckRange(range: Result<LinuxIdMapping, string>, kind: string): Result<LinuxIdMapping, Error> {
    match range
    case Failure(cause) => Failure(IdRangeLookupFailed(cause))
    case Success(r) => if r.size < MinRangeSize then Failure(RangeTooSmall(kind, r.size)) else Success(r)
  }

  /**
   * getReverseUserMaps as written: the sub-UID lookup and check, then the
   * sub-GID lookup and check, whose error message also says "subuid".
   * The ranges are what fakeroot.GetIDRange returned for the host UID.
   */
  function GetReverseUserMapsAsWritten(targetUid: Uint32, targetGid: Uint32,
                                       subuidRange: Result<LinuxIdMapping, string>,
                                       subgidRange: Result<LinuxIdMapping, string>)
    : Result<(seq<LinuxIdMapping>, seq<LinuxIdMapping>), Error>
  {
    match CheckRange(subuidRange, "subuid")
    case Failure(e) => Failure(e)
    case Success(u) =>
      match CheckRange(subgidRange, "subuid")
      case Failure(e) => Failure(e)
      case Success(g) => Success(ReverseMapByRange(targetUid, targetGid, u, g))
  }

  /** With a good sub-UID range and a short sub-GID range, the error as written blames the sub-UID range. */
  lemma GidRangeErrorNamesSubuid()
    ensures GetReverseUserMapsAsWritten(1000, 1000, Success(LinuxIdMapping(0, 100000, 65536)), Success(LinuxIdMapping(0, 100000, 1000)))
         == Failure(RangeTooSmall("subuid", 1000))
  {
  }

  /** getReverseUserMaps with the sub-GID error naming the sub-GID range. */
  function GetReverseUserMaps(targetUid: Uint32, targetGid: Uint32,
                              subuidRange: Result<LinuxIdMapping, string>,
                              subgidRange: Result<LinuxIdMapping, string>)
    : (r: Result<(seq<LinuxIdMapping>, seq<LinuxIdMapping>), Error>)
    ensures r.Failure? && r.error.RangeTooSmall? ==>
      (r.error.kind == "subuid" && subuidRange.Success? && r.error.size == subuidRange.value.size < MinRangeSize) ||
      (r.error.kind == "subgid" && subgidRange.Success? && r.error.size == subgidRange.value.size < MinRangeSize)
  {
    match CheckRange(subuidRange, "subuid")
    case Failure(e) => Failure(e)
    case Success(u) =>
      match CheckRange(subgidRange, "subgid")
      case Failure(e) => Failure(e)
      case Success(g) => Success(ReverseMapByRange(targetUid, targetGid, u, g))
  }

  /**
   * With both lookups successful: an error and no maps exactly when either
   * range is below 65536, and otherwise exactly reverseMapByRange's tables.
   */
  lemma GetReverseUserMapsGuard(targetUid: Uint32, targetGid: Uint32, subuidRange: LinuxIdMapping, subgidRange: LinuxIdMapping)
    ensures var r := GetReverseUserMaps(targetUid, targetGid, Success(subuidRange), Success(subgidRange));
      && (r.Failure? <==> subuidRange.size < MinRangeSize || subgidRange.size < MinRangeSize)
      && (subuidRange.size < MinRangeSize ==> r == Failure(RangeTooSmall("subuid", subuidRange.size)))
      && (MinRangeSize <= subuidRange.size && subgidRange.size < MinRangeSize ==> r == Failure(RangeTooSmall("subgid", subgidRange.size)))
      && (r.Success? ==> r.value == ReverseMapByRange(targetUid, targetGid, subuidRange, subgidRange))
  {
  }

  /** A failed lookup is passed back unchanged; the sub-UID lookup is consulted first. */
  lemma GetReverseUserMapsLookupFailure(targetUid: Uint32, targetGid: Uint32,
                                        subuidRange: Result<LinuxIdMapping, string>,
                                        subgidRange: Result<LinuxIdMapping, string>)
    ensures subuidRange.Failure? ==>
      GetReverseUserMaps(targetUid, targetGid, subuidRange, subgidRange) == Failure(IdRangeLookupFailed(subuidRange.error))
    ensures subuidRange.Success? && MinRangeSize <= subuidRange.value.size && subgidRange.Failure? ==>
      GetReverseUserMaps(targetUid, targetGid, subuidRange, subgidRange) == Failure(IdRangeLookupFailed(subgidRange.error))
  {
  }

  /** Whenever maps are returned, each is a disjoint table in which the target lands on host 0. */
  lemma GetReverseUserMapsSound(targetUid: Uint32, targetGid: Uint32,
                                subuidRange: Result<LinuxIdMapping, string>,
                                subgidRange: Result<LinuxIdMapping, string>)
    requires GetReverseUserMaps(targetUid, targetGid, subuidRange, subgidRange).Success?
    ensures var maps := GetReverseUserMaps(targetUid, targetGid, subuidRange, subgidRange).value;
      && subuidRange.Success? && subgidRange.Success?
      && MinRangeSize <= subuidRange.value.size && MinRangeSize <= subgidRange.value.size
      && ContainerRangesDisjoint(maps.0) && ContainerRangesDisjoint(maps.1)
      && MapToHost(maps.0, targetUid) == Some(0) && MapToHost(maps.1, targetGid) == Some(0)
  {
    var u, g := subuidRange.value, subgidRange.value;
    ReverseMapDisjoint(targetUid, u.size);
    ReverseMapDisjoint(targetGid, g.size);
    ReverseMapLookup(targetUid, u.size, targetUid);
    ReverseMapLookup(targetGid, g.size, targetGid);
  }

  /**
   * The code as written and the corrected guard agree except in the name of
   * the short range: both succeed together with the same tables, and their
   * errors differ only where the sub-GID range is too small.
   */
  lemma GetReverseUserMapsAsWrittenAgrees(targetUid: Uint32, targetGid: Uint32,
                                          subuidRange: Result<LinuxIdMapping, string>,
                                          subgidRange: Result<LinuxIdMapping, string>)
    ensures var written := GetReverseUserMapsAsWritten(targetUid, targetGid, subuidRange, subgidRange);
      var corrected := GetReverseUserMaps(targetUid, targetGid, subuidRange, subgidRange);
      && (written.Success? <==> corrected.Success?)
      && (corrected.Success? ==> written.value == corrected.value)
      && (corrected.Failure? && corrected.error.RangeTooSmall? && corrected.error.kind == "subgid" ==>
            written.error == RangeTooSmall("subuid", corrected.error.size))
      && (corrected.Failure? && !(corrected.error.RangeTooSmall? && corrected.error.kind == "subgid") ==>
            written.error == corrected.error)
  {
  }
}
