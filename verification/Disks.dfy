/**
 The disk index (backend/src/dto/disk_map.go) over an explicit heap.

 A Go pointer is a `Ref`; what it points to is found in the component of `Heap` for its
 type. Partitions and mount points are stored in their maps by value, as in the source,
 and hold pointers to further maps, so the graph may be cyclic.
 */
module Disks {
  import opened Wrappers

  type Ref = nat

  /** In each record `info` stands for the remaining fields, which are copied as they are. */
  datatype Disk = Disk(id: Option<string>, partitions: Option<Ref>, hdIdle: Option<Ref>, smart: Option<Ref>,
      info: string)
  datatype Partition = Partition(id: Option<string>, diskId: Option<string>, mounts: Option<Ref>,
      hostMounts: Option<Ref>, info: string)
  datatype MountPoint = MountPoint(path: string, deviceId: string, partition: Option<Ref>, share: Option<Ref>,
      info: string)
  datatype Share = Share(name: string, users: seq<string>, roUsers: seq<string>, vetoFiles: seq<string>,
      mount: Option<Ref>, info: string)

  datatype Heap = Heap(
    disks: map<Ref, Disk>,
    tables: map<Ref, map<string, Partition>>,
    mounts: map<Ref, map<string, MountPoint>>,
    parts: map<Ref, Partition>,
    points: map<Ref, MountPoint>,
    shares: map<Ref, Share>,
    next: Ref)

  /** The heap and the index itself: disk id to *Disk. */
  datatype State = State(heap: Heap, index: map<string, Ref>)

  datatype Error = InvalidParameter | NotFound
  datatype Outcome = Done | Refused(error: Error) | Panic

  // ---------- reading the three levels ----------

  function TableRef(s: State, dk: string): Option<Ref> {
    if dk in s.index && s.index[dk] in s.heap.disks then s.heap.disks[s.index[dk]].partitions else None
  }

  function Table(s: State, dk: string): map<string, Partition> {
    var t := TableRef(s, dk);
    if t.Some? && t.value in s.heap.tables then s.heap.tables[t.value] else map[]
  }

  function MountsRef(s: State, dk: string, pk: string): Option<Ref> {
    if pk in Table(s, dk) then Table(s, dk)[pk].mounts else None
  }

  function Mounts(s: State, dk: string, pk: string): map<string, MountPoint> {
    var r := MountsRef(s, dk, pk);
    if r.Some? && r.value in s.heap.mounts then s.heap.mounts[r.value] else map[]
  }

  /** What is stored for a mount path of a partition of a disk. */
  function Slot(s: State, dk: string, pk: string, path: string): Option<MountPoint> {
    if path in Mounts(s, dk, pk) then Some(Mounts(s, dk, pk)[path]) else None
  }

  function PartitionAt(s: State, dk: string, pk: string): Option<Partition> {
    if pk in Table(s, dk) then Some(Table(s, dk)[pk]) else None
  }

  /** No pointer of the index dangles, and new objects get references never used before. */
  ghost predicate Closed(s: State) {
    && (forall k :: k in s.index ==> s.index[k] in s.heap.disks)
    && (forall k :: TableRef(s, k).Some? ==> TableRef(s, k).value in s.heap.tables)
    && (forall dk, pk :: MountsRef(s, dk, pk).Some? ==> MountsRef(s, dk, pk).value in s.heap.mounts)
    && Fresh(s.heap)
  }

  ghost predicate Fresh(h: Heap) {
    && (forall r :: r in h.disks ==> r < h.next)
    && (forall r :: r in h.tables ==> r < h.next)
    && (forall r :: r in h.mounts ==> r < h.next)
    && (forall r :: r in h.parts ==> r < h.next)
    && (forall r :: r in h.points ==> r < h.next)
    && (forall r :: r in h.shares ==> r < h.next)
  }

  /** Different disks have different partition maps, different partitions different mount maps. */
  ghost predicate Unaliased(s: State) {
    && (forall a, b :: TableRef(s, a).Some? && TableRef(s, a) == TableRef(s, b) ==> a == b)
    && (forall a, p, b, q :: MountsRef(s, a, p).Some? && MountsRef(s, a, p) == MountsRef(s, b, q) ==> a == b && p == q)
  }

  /** Every key repeats what its entry says of itself. */
  ghost predicate Keyed(s: State) {
    && (forall k :: k in s.index && s.index[k] in s.heap.disks ==> s.heap.disks[s.index[k]].id == Some(k))
    && (forall dk, pk :: PartitionAt(s, dk, pk).Some? ==>
         PartitionAt(s, dk, pk).value.id == Some(pk) && PartitionAt(s, dk, pk).value.diskId == Some(dk))
    && (forall dk, pk, path :: Slot(s, dk, pk, path).Some? ==> Slot(s, dk, pk, path).value.path == path)
  }

  ghost predicate Inv(s: State) {
    Closed(s) && Unaliased(s) && Keyed(s)
  }

  // ---------- writing the three levels ----------

  function PutTable(s: State, t: Ref, m: map<string, Partition>): State {
    s.(heap := s.heap.(tables := s.heap.tables[t := m]))
  }

  function PutMounts(s: State, r: Ref, m: map<string, MountPoint>): State {
    s.(heap := s.heap.(mounts := s.heap.mounts[r := m]))
  }

  function PutDisk(s: State, r: Ref, d: Disk): State {
    s.(heap := s.heap.(disks := s.heap.disks[r := d]))
  }

  function PutSlot(s: State, dk: string, pk: string, path: string, mp: MountPoint): State
    requires MountsRef(s, dk, pk).Some?
  {
    PutMounts(s, MountsRef(s, dk, pk).value, Mounts(s, dk, pk)[path := mp])
  }

  function CutSlot(s: State, dk: string, pk: string, path: string): State
    requires MountsRef(s, dk, pk).Some?
  {
    PutMounts(s, MountsRef(s, dk, pk).value, Mounts(s, dk, pk) - {path})
  }

  function PutPartition(s: State, dk: string, pk: string, p: Partition): State
    requires TableRef(s, dk).Some?
  {
    PutTable(s, TableRef(s, dk).value, Table(s, dk)[pk := p])
  }

  function CutPartition(s: State, dk: string, pk: string): State
    requires TableRef(s, dk).Some?
  {
    PutTable(s, TableRef(s, dk).value, Table(s, dk) - {pk})
  }

  /** A new, empty mount map for a partition that has none. */
  function WithMounts(s: State, dk: string, pk: string): State
    requires PartitionAt(s, dk, pk).Some?
  {
    if MountsRef(s, dk, pk).Some? then s
    else
      var r := s.heap.next;
      var s1 := PutMounts(s, r, map[]);
      PutPartition(s1.(heap := s1.heap.(next := r + 1)), dk, pk, Table(s, dk)[pk].(mounts := Some(r)))
  }

  /** A new, empty partition map for a disk that has none. */
  function WithTable(s: State, dk: string): State
    requires dk in s.index && s.index[dk] in s.heap.disks
  {
    if TableRef(s, dk).Some? then s
    else
      var t := s.heap.next;
      var s1 := PutTable(s, t, map[]);
      PutDisk(s1.(heap := s1.heap.(next := t + 1)), s.index[dk], s.heap.disks[s.index[dk]].(partitions := Some(t)))
  }

  /** A heap copy of a partition, for a mount point to refer to. */
  function WithPartitionCopy(s: State, p: Partition): State {
    s.(heap := s.heap.(parts := s.heap.parts[s.heap.next := p], next := s.heap.next + 1))
  }

  // ---------- the operations as relations ----------

  datatype Op =
    | AddDisk(disk: Ref)
    | RemoveDisk(id: string)
    | PutMountPoint(diskId: string, partId: string, mp: MountPoint)
    | RemoveMountPoint(diskId: string, partId: string, path: string)
    | AddPartition(diskId: string, p: Partition)
    | RemovePartition(diskId: string, partId: string)
    | AddShare(share: Option<Ref>)
    | RemoveShare(name: string)
    | SetHDIdle(diskId: string, device: Ref)
    | SetSmart(diskId: string, smart: Ref)

  /** The mount point AddOrUpdateMountPoint stores: device id and partition are filled in. */
  function Completed(s: State, p: Partition, mp: MountPoint): MountPoint {
    mp.(deviceId := if mp.deviceId == "" && p.id.Some? then p.id.value else mp.deviceId,
        partition := if mp.partition.None? then Some(s.heap.next) else mp.partition)
  }

  function MountPointPut(s: State, dk: string, pk: string, mp: MountPoint): State
    requires PartitionAt(s, dk, pk).Some?
  {
    var s1 := WithMounts(s, dk, pk);
    var p := Table(s, dk)[pk].(mounts := if MountsRef(s, dk, pk).Some? then MountsRef(s, dk, pk)
        else Some(s.heap.next));
    var s2 := if mp.partition.None? then WithPartitionCopy(s1, p) else s1;
    PutMounts(s2, p.mounts.value, Mounts(s, dk, pk)[mp.path := Completed(s1, p, mp)])
  }

  function PartitionAdded(s: State, dk: string, p: Partition): State
    requires dk in s.index && s.index[dk] in s.heap.disks && p.id.Some?
  {
    var s1 := WithTable(s, dk);
    var t := if TableRef(s, dk).Some? then TableRef(s, dk).value else s.heap.next;
    PutTable(s1, t, Table(s, dk)[p.id.value := p.(diskId := Some(dk))])
  }

  /** The slots a share may be attached to: the one its partition names, or else any with its path. */
  ghost predicate ShareTarget(s: State, share: Ref, dk: string, pk: string, path: string) {
    && share in s.heap.shares
    && s.heap.shares[share].mount.Some? && s.heap.shares[share].mount.value in s.heap.points
    && var mp := s.heap.points[s.heap.shares[share].mount.value];
    && mp.path == path != ""
    && Slot(s, dk, pk, path).Some?
    && (mp.partition.Some? ==>
          && mp.partition.value in s.heap.parts
          && s.heap.parts[mp.partition.value].diskId == Some(dk) && dk != ""
          && s.heap.parts[mp.partition.value].id == Some(pk) && pk != "")
  }

  /** A share AddMountPointShare refuses without looking at the index. */
  ghost predicate BadShare(h: Heap, share: Option<Ref>) {
    share.None? || (share.value in h.shares &&
        (h.shares[share.value].mount.None? || BadMount(h, h.shares[share.value].mount.value)))
  }

  ghost predicate BadMount(h: Heap, r: Ref) {
    r in h.points &&
    (h.points[r].path == "" ||
     (h.points[r].partition.Some? && h.points[r].partition.value in h.parts &&
      var part := h.parts[h.points[r].partition.value];
      part.diskId in {None, Some("")} || part.id in {None, Some("")}))
  }

  /** No slot for the share: none in the partition its mount point names, or none anywhere. */
  ghost predicate Placeless(s: State, share: Ref) {
    && share in s.heap.shares && s.heap.shares[share].mount.Some? && s.heap.shares[share].mount.value in s.heap.points
    && var mp := s.heap.points[s.heap.shares[share].mount.value];
    if mp.partition.Some?
    then
      && mp.partition.value in s.heap.parts
      && var part := s.heap.parts[mp.partition.value];
      part.diskId.Some? && part.id.Some? && Slot(s, part.diskId.value, part.id.value, mp.path).None?
    else forall dk, pk :: Slot(s, dk, pk, mp.path).None?
  }

  ghost predicate Carries(s: State, name: string, dk: string, pk: string, path: string) {
    var mp := Slot(s, dk, pk, path);
    && mp.Some? && mp.value.share.Some? && mp.value.share.value in s.heap.shares
    && s.heap.shares[mp.value.share.value].name == name
  }

  ghost predicate ShareAdded(s: State, share: Ref, dk: string, pk: string, path: string, s2: State) {
    && ShareTarget(s, share, dk, pk, path)
    && MountsRef(s, dk, pk).Some?
    && s2 == PutSlot(s, dk, pk, path, Slot(s, dk, pk, path).value.(share := Some(share)))
  }

  ghost predicate ShareRemoved(s: State, name: string, dk: string, pk: string, path: string, s2: State) {
    && Carries(s, name, dk, pk, path)
    && MountsRef(s, dk, pk).Some?
    && s2 == PutSlot(s, dk, pk, path, Slot(s, dk, pk, path).value.(share := None))
  }

  /** Whether an operation changes anything; the others report an error or false. */
  ghost predicate Effective(s: State, op: Op) {
    match op
    case AddDisk(d) => d in s.heap.disks && s.heap.disks[d].id.Some? && s.heap.disks[d].id.value != ""
    case RemoveDisk(id) => id in s.index && id != ""
    case PutMountPoint(dk, pk, mp) => PartitionAt(s, dk, pk).Some? && dk != "" && pk != "" && mp.path != ""
    case RemoveMountPoint(dk, pk, path) => Slot(s, dk, pk, path).Some? && dk != "" && pk != "" && path != ""
    case AddPartition(dk, p) => dk in s.index && s.index[dk] in s.heap.disks && dk != "" && p.id.Some? &&
        p.id.value != ""
    case RemovePartition(dk, pk) => PartitionAt(s, dk, pk).Some? && dk != "" && pk != ""
    case AddShare(share) => share.Some? && exists dk, pk, path :: ShareTarget(s, share.value, dk, pk, path)
    case RemoveShare(name) => name != "" && exists dk, pk, path :: Carries(s, name, dk, pk, path)
    case SetHDIdle(dk, _) => dk in s.index && s.index[dk] in s.heap.disks && dk != ""
    case SetSmart(dk, _) => dk in s.index && s.index[dk] in s.heap.disks && dk != ""
  }

  /** One operation. Where the source searches its maps, whose order is unspecified, any entry
      that qualifies may be the one found. */
  ghost predicate Step(s: State, op: Op, s2: State) {
    if !Effective(s, op) then s2 == s
    else match op
      case AddDisk(d) => s2 == s.(index := s.index[s.heap.disks[d].id.value := d])
      case RemoveDisk(id) => s2 == s.(index := s.index - {id})
      case PutMountPoint(dk, pk, mp) => s2 == MountPointPut(s, dk, pk, mp)
      case RemoveMountPoint(dk, pk, path) => MountsRef(s, dk, pk).Some? && s2 == CutSlot(s, dk, pk, path)
      case AddPartition(dk, p) => s2 == PartitionAdded(s, dk, p)
      case RemovePartition(dk, pk) => TableRef(s, dk).Some? && s2 == CutPartition(s, dk, pk)
      case AddShare(share) => exists dk, pk, path :: ShareAdded(s, share.value, dk, pk, path, s2)
      case RemoveShare(name) => exists dk, pk, path :: ShareRemoved(s, name, dk, pk, path, s2)
      case SetHDIdle(dk, x) => s2 == PutDisk(s, s.index[dk], s.heap.disks[s.index[dk]].(hdIdle := Some(x)))
      case SetSmart(dk, x) => s2 == PutDisk(s, s.index[dk], s.heap.disks[s.index[dk]].(smart := Some(x)))
  }
}
