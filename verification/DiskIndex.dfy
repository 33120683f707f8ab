/**
 The DiskMap methods as the source writes them: lookups level by level, maps written and
 deleted in place, and searches over maps whose order is unspecified.
 */
module DiskIndex {
  import opened Wrappers
  import opened Disks
  import opened DiskLaws

  class DiskMap {
    var heap: Heap
    var index: map<string, Ref>
    var isNil: bool

    ghost function St(): State
      reads this
    {
      State(heap, index)
    }

    /** Go's memory safety, and a nil map being empty. */
    ghost predicate Valid()
      reads this
    {
      Closed(St()) && (isNil ==> index == map[])
    }

    constructor ()
      ensures Valid() && !isNil && index == map[]
    {
      heap := Heap(map[], map[], map[], map[], map[], map[], 0);
      index := map[];
      isNil := false;
    }

    /** A disk without an id is refused first; then writing to a nil map panics. */
    method AddOrUpdate(d: Ref) returns (r: Outcome)
      requires Valid() && d in heap.disks
      modifies this
      ensures r == Panic <==> isNil && Effective(old(St()), AddDisk(d))
      ensures r == Refused(InvalidParameter) <==> !Effective(old(St()), AddDisk(d))
      ensures r == Done || r == Panic || r == Refused(InvalidParameter)
      ensures ArgumentsExist(old(St()), AddDisk(d)) ==> Valid()
      ensures if r == Panic then St() == old(St()) else Step(old(St()), AddDisk(d), St())
      ensures isNil == old(isNil)
      ensures r == Done ==>
          heap.disks[d].id.Some? && heap == old(heap) && index == old(index)[heap.disks[d].id.value := d]
      ensures r == Refused(InvalidParameter) <==> old(heap).disks[d].id in {None, Some("")}
    {
      var id := heap.disks[d].id;
      if id.None? || id.value == "" {
        return Refused(InvalidParameter);
      }
      if isNil {
        return Panic;
      }
      if ArgumentsExist(St(), AddDisk(d)) { AddDiskClosed(St(), d); }
      index := index[id.value := d];
      return Done;
    }

    method Remove(id: string) returns (ok: bool)
      requires Valid()
      modifies this
      ensures Valid()
      ensures Step(old(St()), RemoveDisk(id), St())
      ensures isNil == old(isNil)
      ensures ok == Effective(old(St()), RemoveDisk(id))
      ensures ok <==> id != "" && id in old(index)
      ensures ok ==> index == old(index) - {id} && heap == old(heap)
    {
      if isNil || id == "" {
        return false;
      }
      if id in index {
        RemoveDiskClosed(St(), id);
        index := index - {id};
        return true;
      }
      return false;
    }

    method Get(id: string) returns (d: Option<Ref>)
      requires Valid()
      ensures d == if id in index && id != "" then Some(index[id]) else None
    {
      if isNil || id == "" {
        return None;
      }
      d := if id in index then Some(index[id]) else None;
    }

    method AddOrUpdateMountPoint(diskID: string, partitionID: string, mp: MountPoint) returns (err: Option<Error>)
      requires Valid()
      modifies this
      ensures Valid()
      ensures Step(old(St()), PutMountPoint(diskID, partitionID, mp), St())
      ensures err.None? <==> Effective(old(St()), PutMountPoint(diskID, partitionID, mp))
      ensures err == Some(InvalidParameter) <==> !isNil && (diskID == "" || partitionID == "" || mp.path == "")
      ensures isNil == old(isNil)
      ensures err == Some(NotFound) <==>
          isNil || (diskID != "" && partitionID != "" && mp.path != "" &&
              PartitionAt(old(St()), diskID, partitionID).None?)
      ensures err.None? ==> Slot(St(), diskID, partitionID, mp.path).Some?
    {
      if isNil {
        return Some(NotFound);
      }
      if diskID == "" || partitionID == "" || mp.path == "" {
        return Some(InvalidParameter);
      }
      if diskID !in index {
        return Some(NotFound);
      }
      var d := heap.disks[index[diskID]];
      if d.partitions.None? {
        return Some(NotFound);
      }
      var table := d.partitions.value;
      assert TableRef(St(), diskID) == Some(table);
      if partitionID !in heap.tables[table] {
        return Some(NotFound);
      }
      MountPointPutClosed(St(), diskID, partitionID, mp);
      StoreMountPoint(diskID, partitionID, mp);
      return None;
    }

    /** The rest of AddOrUpdateMountPoint, once disk and partition are found. */
    method StoreMountPoint(diskID: string, partitionID: string, mp: MountPoint)
      requires Valid() && PartitionAt(St(), diskID, partitionID).Some?
      modifies this
      ensures St() == MountPointPut(old(St()), diskID, partitionID, mp)
      ensures isNil == old(isNil)
    {
      hide MountPointPut, Mounts;
      ghost var s := St();
      var table := heap.disks[index[diskID]].partitions.value;
      var part := heap.tables[table][partitionID];
      assert TableRef(s, diskID) == Some(table) && part.mounts == MountsRef(s, diskID, partitionID);
      part := EnsureMountMap(part);
      var stored := Complete(part, mp);
      var r := part.mounts.value;
      Assembled(s, diskID, partitionID, mp, table, part, heap);
      heap := heap.(mounts := heap.mounts[r := heap.mounts[r][mp.path := stored]]);
      heap := heap.(tables := heap.tables[table := heap.tables[table][partitionID := part]]);
      index := index[diskID := index[diskID]];
    }

    /** The stores at the end of AddOrUpdateMountPoint, from the heap `h` in which mount map and
        partition copy are made. */
    lemma Assembled(s: State, diskID: string, partitionID: string, mp: MountPoint, table: Ref, part: Partition, h: Heap)
      requires Closed(s) && PartitionAt(s, diskID, partitionID).Some? && TableRef(s, diskID) == Some(table)
      requires var s1 := WithNewMap(s, diskID, partitionID);
        && part == Table(s, diskID)[partitionID].(mounts := if MountsRef(s, diskID, partitionID).Some?
            then MountsRef(s, diskID, partitionID) else Some(s.heap.next))
        && h == (if mp.partition.None? then WithPartitionCopy(s1, part) else s1).heap
      ensures part.mounts.value in h.mounts && h.mounts[part.mounts.value] == Mounts(s, diskID, partitionID)
      ensures table in h.tables && h.tables == s.heap.tables
      ensures var s1 := WithNewMap(s, diskID, partitionID);
        State(h.(mounts := h.mounts[part.mounts.value :=
            h.mounts[part.mounts.value][mp.path := Completed(s1, part, mp)]],
                 tables := h.tables[table := h.tables[table][partitionID := part]]), s.index)
        == MountPointPut(s, diskID, partitionID, mp)
    {
      WriteBack(s, diskID, partitionID, table, part);
      hide Closed;
    }

    ghost function WithNewMap(s: State, diskID: string, partitionID: string): State {
      if MountsRef(s, diskID, partitionID).Some? then s
      else s.(heap := s.heap.(mounts := s.heap.mounts[s.heap.next := map[]], next := s.heap.next + 1))
    }

    /** Storing the partition again is what WithMounts does to the partition map. */
    lemma WriteBack(s: State, diskID: string, partitionID: string, table: Ref, part: Partition)
      requires PartitionAt(s, diskID, partitionID).Some? && TableRef(s, diskID) == Some(table)
      requires part == if MountsRef(s, diskID, partitionID).Some? then Table(s, diskID)[partitionID]
                       else Table(s, diskID)[partitionID].(mounts := Some(s.heap.next))
      ensures table in s.heap.tables && partitionID in s.heap.tables[table]
      ensures WithMounts(s, diskID, partitionID) == State(
        s.heap.(tables := s.heap.tables[table := s.heap.tables[table][partitionID := part]],
                mounts := if MountsRef(s, diskID, partitionID).Some? then s.heap.mounts
                    else s.heap.mounts[s.heap.next := map[]],
                next := if MountsRef(s, diskID, partitionID).Some? then s.heap.next else s.heap.next + 1),
        s.index)
    {
      if MountsRef(s, diskID, partitionID).Some? {
        StoredAgain(s.heap.tables, table, partitionID);
      }
    }

    method EnsureMountMap(part: Partition) returns (p: Partition)
      modifies this`heap
      ensures part.mounts.Some? ==> p == part && heap == old(heap)
      ensures part.mounts.None? ==> p == part.(mounts := Some(old(heap.next)))
      ensures part.mounts.None? ==> heap == old(heap.(mounts := heap.mounts[heap.next := map[]], next := heap.next + 1))
    {
      p := part;
      if part.mounts.None? {
        heap := heap.(mounts := heap.mounts[heap.next := map[]], next := heap.next + 1);
        p := part.(mounts := Some(heap.next - 1));
      }
    }

    /** Fills in the device id and, if there is none, a reference to a copy of the partition. */
    method Complete(part: Partition, mp: MountPoint) returns (stored: MountPoint)
      modifies this`heap
      ensures stored == Completed(old(St()), part, mp)
      ensures St() == if mp.partition.None? then WithPartitionCopy(old(St()), part) else old(St())
    {
      stored := mp;
      if stored.deviceId == "" && part.id.Some? {
        stored := stored.(deviceId := part.id.value);
      }
      if stored.partition.None? {
        heap := heap.(parts := heap.parts[heap.next := part], next := heap.next + 1);
        stored := stored.(partition := Some(heap.next - 1));
      }
    }

    method RemoveMountPoint(diskID: string, partitionID: string, path: string) returns (ok: bool)
      requires Valid()
      modifies this
      ensures Valid()
      ensures Step(old(St()), Op.RemoveMountPoint(diskID, partitionID, path), St())
      ensures isNil == old(isNil)
      ensures ok == Effective(old(St()), Op.RemoveMountPoint(diskID, partitionID, path))
      ensures ok <==>
          diskID != "" && partitionID != "" && path != "" && Slot(old(St()), diskID, partitionID, path).Some?
      ensures ok ==> Slot(St(), diskID, partitionID, path).None?
    {
      if isNil || diskID == "" || partitionID == "" || path == "" {
        return false;
      }
      if diskID !in index || heap.disks[index[diskID]].partitions.None? {
        return false;
      }
      var table := heap.disks[index[diskID]].partitions.value;
      assert TableRef(St(), diskID) == Some(table);
      if partitionID !in heap.tables[table] || heap.tables[table][partitionID].mounts.None? {
        return false;
      }
      var part := heap.tables[table][partitionID];
      var r := part.mounts.value;
      assert part.mounts == MountsRef(St(), diskID, partitionID) && heap.mounts[r] == Mounts(St(), diskID, partitionID);
      if path in heap.mounts[r] {
        ghost var s := St();
        heap := heap.(mounts := heap.mounts[r := heap.mounts[r] - {path}]);
        StoredAgain(heap.tables, table, partitionID);
        heap := heap.(tables := heap.tables[table := heap.tables[table][partitionID := part]]);
        index := index[diskID := index[diskID]];
        StepKeepsClosed(s, Op.RemoveMountPoint(diskID, partitionID, path), St());
        return true;
      }
      return false;
    }

    /** Writing back what a nested map already holds changes nothing. */
    static lemma StoredAgain<K, T>(m: map<K, map<string, T>>, r: K, k: string)
      requires r in m && k in m[r]
      ensures m[r := m[r][k := m[r][k]]] == m
    {
      assert m[r][k := m[r][k]] == m[r];
    }

    method AddPartition(diskID: string, p: Partition) returns (err: Option<Error>)
      requires Valid()
      modifies this
      ensures ArgumentsExist(old(St()), Op.AddPartition(diskID, p)) ==> Valid()
      ensures Step(old(St()), Op.AddPartition(diskID, p), St())
      ensures err.None? <==> Effective(old(St()), Op.AddPartition(diskID, p))
      ensures err == Some(InvalidParameter) <==> !isNil && (diskID == "" || p.id.None? || p.id.value == "")
      ensures isNil == old(isNil)
      ensures err == Some(NotFound) <==>
          isNil || (diskID != "" && p.id.Some? && p.id.value != "" && diskID !in old(index))
      ensures err.None? ==> PartitionAt(St(), diskID, p.id.value) == Some(p.(diskId := Some(diskID)))
    {
      if isNil {
        return Some(NotFound);
      }
      if diskID == "" || p.id.None? || p.id.value == "" {
        return Some(InvalidParameter);
      }
      if diskID !in index {
        return Some(NotFound);
      }
      ghost var s := St();
      assert TableRef(s, diskID) == heap.disks[index[diskID]].partitions;
      var d := index[diskID];
      if heap.disks[d].partitions.None? {
        heap := heap.(tables := heap.tables[heap.next := map[]], next := heap.next + 1,
                      disks := heap.disks[d := heap.disks[d].(partitions := Some(heap.next))]);
      }
      var part := p;
      if part.diskId.None? || part.diskId.value != diskID {
        part := part.(diskId := Some(diskID));
      }
      var table := heap.disks[d].partitions.value;
      assert heap.tables[table] == Table(s, diskID);
      heap := heap.(tables := heap.tables[table := heap.tables[table][p.id.value := part]]);
      index := index[diskID := d];
      if ArgumentsExist(s, Op.AddPartition(diskID, p)) { StepKeepsClosed(s, Op.AddPartition(diskID, p), St()); }
      return None;
    }

    method RemovePartition(diskID: string, partitionID: string) returns (ok: bool)
      requires Valid()
      modifies this
      ensures Valid()
      ensures Step(old(St()), Op.RemovePartition(diskID, partitionID), St())
      ensures isNil == old(isNil)
      ensures ok == Effective(old(St()), Op.RemovePartition(diskID, partitionID))
      ensures ok <==> diskID != "" && partitionID != "" && PartitionAt(old(St()), diskID, partitionID).Some?
      ensures ok ==> PartitionAt(St(), diskID, partitionID).None?
    {
      if isNil || diskID == "" || partitionID == "" {
        return false;
      }
      if diskID !in index || heap.disks[index[diskID]].partitions.None? {
        return false;
      }
      var table := heap.disks[index[diskID]].partitions.value;
      assert TableRef(St(), diskID) == Some(table);
      if partitionID in heap.tables[table] {
        ghost var s := St();
        heap := heap.(tables := heap.tables[table := heap.tables[table] - {partitionID}]);
        index := index[diskID := index[diskID]];
        StepKeepsClosed(s, Op.RemovePartition(diskID, partitionID), St());
        return true;
      }
      return false;
    }

    method GetPartition(diskID: string, partitionID: string) returns (p: Option<Partition>)
      requires Valid()
      ensures p == if diskID != "" && partitionID != "" then PartitionAt(St(), diskID, partitionID) else None
    {
      if isNil || diskID == "" || partitionID == "" {
        return None;
      }
      if diskID in index && heap.disks[index[diskID]].partitions.Some? {
        var table := heap.disks[index[diskID]].partitions.value;
        assert TableRef(St(), diskID) == Some(table);
        if partitionID in heap.tables[table] {
          return Some(heap.tables[table][partitionID]);
        }
      }
      return None;
    }

    method GetMountPoint(diskID: string, partitionID: string, path: string) returns (mp: Option<MountPoint>)
      requires Valid()
      ensures mp == if diskID != "" && partitionID != "" && path != "" then Slot(St(), diskID, partitionID, path)
          else None
    {
      if path == "" {
        return None;
      }
      var p := GetPartition(diskID, partitionID);
      if p.None? || p.value.mounts.None? {
        return None;
      }
      assert p.value.mounts == MountsRef(St(), diskID, partitionID);
      var m := heap.mounts[p.value.mounts.value];
      mp := if path in m then Some(m[path]) else None;
    }

    /** Succeeds exactly when some partition holds the path. */
    method GetMountPointByPath(path: string) returns (mp: Option<MountPoint>)
      requires Valid()
      ensures mp.Some? <==> path != "" && exists dk, pk :: Slot(St(), dk, pk, path).Some?
      ensures mp.Some? ==> exists dk, pk :: Slot(St(), dk, pk, path) == mp
    {
      mp := None;
      if isNil || path == "" {
        return;
      }
      var disks := index.Keys;
      while disks != {}
        invariant disks <= index.Keys
        invariant forall dk, pk :: dk !in disks ==> Slot(St(), dk, pk, path).None?
        decreases |disks|
      {
        var dk :| dk in disks;
        var table := heap.disks[index[dk]].partitions;
        assert table == TableRef(St(), dk);
        var parts := if table.Some? then heap.tables[table.value].Keys else {};
        assert parts == Table(St(), dk).Keys;
        while parts != {}
          invariant parts <= Table(St(), dk).Keys
          invariant forall pk :: pk !in parts ==> Slot(St(), dk, pk, path).None?
          decreases |parts|
        {
          var pk :| pk in parts;
          var part := heap.tables[table.value][pk];
          assert part.mounts == MountsRef(St(), dk, pk);
          if part.mounts.Some? && path in heap.mounts[part.mounts.value] {
            mp := Some(heap.mounts[part.mounts.value][path]);
            assert Slot(St(), dk, pk, path) == mp;
            return;
          }
          assert Slot(St(), dk, pk, path).None?;
          parts := parts - {pk};
        }
        disks := disks - {dk};
      }
    }

    method GetPartitionByID(partitionID: string) returns (p: Option<Partition>, diskID: string)
      requires Valid()
      ensures p.Some? <==> partitionID != "" && exists dk :: PartitionAt(St(), dk, partitionID).Some?
      ensures p.Some? ==> PartitionAt(St(), diskID, partitionID) == p
      ensures p.None? ==> diskID == ""
    {
      p, diskID := None, "";
      if isNil || partitionID == "" {
        return;
      }
      var disks := index.Keys;
      while disks != {}
        invariant disks <= index.Keys
        invariant forall dk :: dk !in disks ==> PartitionAt(St(), dk, partitionID).None?
        decreases |disks|
      {
        var dk :| dk in disks;
        var table := heap.disks[index[dk]].partitions;
        assert table == TableRef(St(), dk);
        if table.Some? && partitionID in heap.tables[table.value] {
          p, diskID := Some(heap.tables[table.value][partitionID]), dk;
          assert PartitionAt(St(), dk, partitionID) == p;
          return;
        }
        disks := disks - {dk};
      }
    }

    /** Every mount point of every partition once and nothing else: the slots they came from can
        be named, without repetition and without omission. */
    method GetAllMountPoints() returns (result: seq<MountPoint>)
      requires Valid()
      ensures exists slots :: Listing(St(), result, slots)
    {
      result := [];
      ghost var slots := [];
      if isNil {
        assert Listing(St(), result, slots);
        return;
      }
      var disks := index.Keys;
      while disks != {}
        invariant disks <= index.Keys
        invariant Collected(St(), result, slots)
        invariant forall x :: x in slots ==> x.0 !in disks
        invariant forall dk, pk, path :: dk !in disks && Slot(St(), dk, pk, path).Some? ==> (dk, pk, path) in slots
        decreases |disks|
      {
        var dk :| dk in disks;
        result, slots := CollectDisk(dk, result, slots);
        disks := disks - {dk};
      }
      assert Listing(St(), result, slots);
    }

    ghost predicate Listing(s: State, result: seq<MountPoint>, slots: seq<(string, string, string)>) {
      && Collected(s, result, slots)
      && (forall dk, pk, path :: Slot(s, dk, pk, path).Some? ==> (dk, pk, path) in slots)
    }

    ghost predicate Collected(s: State, result: seq<MountPoint>, slots: seq<(string, string, string)>) {
      && |slots| == |result|
      && (forall i :: 0 <= i < |result| ==> Slot(s, slots[i].0, slots[i].1, slots[i].2) == Some(result[i]))
      && (forall i, j :: 0 <= i < j < |slots| ==> slots[i] != slots[j])
    }

    method CollectDisk(dk: string, sofar: seq<MountPoint>, ghost from: seq<(string, string, string)>)
      returns (result: seq<MountPoint>, ghost slots: seq<(string, string, string)>)
      requires Valid() && dk in index && Collected(St(), sofar, from)
      requires forall x :: x in from ==> x.0 != dk
      ensures Collected(St(), result, slots)
      ensures (forall x :: x in from ==> x in slots) && forall x :: x in slots ==> x in from || x.0 == dk
      ensures forall pk, path :: Slot(St(), dk, pk, path).Some? ==> (dk, pk, path) in slots
    {
      hide Slot, MountsRef, Mounts, TableRef;
      DiskRead(dk);
      result, slots := sofar, from;
      var table := heap.disks[index[dk]].partitions;
      var parts := if table.Some? then heap.tables[table.value].Keys else {};
      assert parts == Table(St(), dk).Keys;
      while parts != {}
        invariant parts <= Table(St(), dk).Keys
        invariant Collected(St(), result, slots)
        invariant (forall x :: x in from ==> x in slots) && forall x :: x in slots ==>
            x in from || (x.0 == dk && x.1 !in parts)
        invariant forall pk, path :: pk !in parts && Slot(St(), dk, pk, path).Some? ==> (dk, pk, path) in slots
        decreases |parts|
      {
        var pk :| pk in parts;
        result, slots := CollectPartition(dk, pk, heap.tables[table.value][pk], result, slots);
        parts := parts - {pk};
      }
    }

    /** What the fields say of a disk is what the functions on states say. */
    lemma DiskRead(dk: string)
      requires Valid() && dk in index
      ensures index[dk] in heap.disks
      ensures heap.disks[index[dk]].partitions == TableRef(St(), dk)
      ensures TableRef(St(), dk).Some? ==>
        TableRef(St(), dk).value in heap.tables && heap.tables[TableRef(St(), dk).value] == Table(St(), dk)
      ensures TableRef(St(), dk).None? ==> Table(St(), dk) == map[]
      ensures forall pk, path :: pk !in Table(St(), dk) ==> Slot(St(), dk, pk, path).None?
    {}

    method CollectPartition(dk: string, pk: string, part: Partition, sofar: seq<MountPoint>,
        ghost from: seq<(string, string, string)>)
      returns (result: seq<MountPoint>, ghost slots: seq<(string, string, string)>)
      requires Valid() && PartitionAt(St(), dk, pk) == Some(part) && Collected(St(), sofar, from)
      requires forall x :: x in from ==> (x.0, x.1) != (dk, pk)
      ensures Collected(St(), result, slots)
      ensures (forall x :: x in from ==> x in slots) && forall x :: x in slots ==> x in from || (x.0 == dk && x.1 == pk)
      ensures forall path :: Slot(St(), dk, pk, path).Some? ==> (dk, pk, path) in slots
    {
      result, slots := sofar, from;
      assert part.mounts == MountsRef(St(), dk, pk);
      var m := if part.mounts.Some? then heap.mounts[part.mounts.value] else map[];
      assert m == Mounts(St(), dk, pk);
      var paths := m.Keys;
      while paths != {}
        invariant paths <= m.Keys
        invariant Collected(St(), result, slots)
        invariant (forall x :: x in from ==> x in slots) && forall x :: x in slots ==>
            x in from || (x.0 == dk && x.1 == pk && x.2 !in paths)
        invariant forall path :: path !in paths && path in m ==> (dk, pk, path) in slots
        decreases |paths|
      {
        var path :| path in paths;
        result, slots := result + [m[path]], slots + [(dk, pk, path)];
        paths := paths - {path};
      }
    }

    ghost predicate ShareClosed(share: Ref)
      reads this
    {
      && share in heap.shares
      && (heap.shares[share].mount.Some? ==>
            && heap.shares[share].mount.value in heap.points
            && var mp := heap.points[heap.shares[share].mount.value];
            (mp.partition.Some? ==> mp.partition.value in heap.parts))
    }

    /** Attaches a share to the slot its partition information names or, without any, to the
        first slot with its path that the search meets. */
    method AddMountPointShare(share: Option<Ref>) returns (disk: Option<Ref>, err: Option<Error>)
      requires Valid() && (share.Some? ==> ShareClosed(share.value))
      modifies this
      ensures Valid()
      ensures Step(old(St()), AddShare(share), St())
      ensures err.None? <==> Effective(old(St()), AddShare(share))
      ensures err == Some(InvalidParameter) <==> !isNil && BadShare(old(heap), share)
      ensures err == Some(NotFound) <==> isNil || (!BadShare(old(heap), share) && Placeless(old(St()), share.value))
      ensures disk.Some? <==> err.None?
      ensures disk.Some? ==> exists dk, pk, path ::
          ShareAdded(old(St()), share.value, dk, pk, path, St()) && disk == Some(index[dk])
      ensures isNil == old(isNil) && index == old(index)
    {
      disk := None;
      ghost var s := St();
      if isNil {
        return None, Some(NotFound);
      }
      if share.None? || heap.shares[share.value].mount.None? {
        return None, Some(InvalidParameter);
      }
      var mp := heap.points[heap.shares[share.value].mount.value];
      var path := mp.path;
      if path == "" {
        return None, Some(InvalidParameter);
      }
      var diskID, partitionID := "", "";
      if mp.partition.Some? {
        var part := heap.parts[mp.partition.value];
        if part.diskId.None? || part.diskId.value == "" || part.id.None? || part.id.value == "" {
          return None, Some(InvalidParameter);
        }
        diskID, partitionID := part.diskId.value, part.id.value;
      } else {
        var found;
        found, diskID, partitionID := FindPath(path);
        if !found {
          return None, Some(NotFound);
        }
      }
      var slot := SlotAt(diskID, partitionID, path);
      if slot.None? {
        return None, Some(NotFound);
      }
      assert ShareTarget(s, share.value, diskID, partitionID, path);
      SetShare(diskID, partitionID, path, slot.value, share);
      assert ShareAdded(s, share.value, diskID, partitionID, path, St());
      return Some(index[diskID]), None;
    }

    /** The search AddMountPointShare makes when the share does not name its partition. */
    method FindPath(path: string) returns (found: bool, diskID: string, partitionID: string)
      requires Valid()
      ensures found ==> Slot(St(), diskID, partitionID, path).Some?
      ensures !found ==> forall dk, pk :: Slot(St(), dk, pk, path).None?
    {
      found, diskID, partitionID := false, "", "";
      var disks := index.Keys;
      while disks != {}
        invariant disks <= index.Keys && !found
        invariant forall dk, pk :: dk !in disks ==> Slot(St(), dk, pk, path).None?
        decreases |disks|
      {
        var dk :| dk in disks;
        var table := heap.disks[index[dk]].partitions;
        assert table == TableRef(St(), dk);
        var parts := if table.Some? then heap.tables[table.value].Keys else {};
        assert parts == Table(St(), dk).Keys;
        while parts != {}
          invariant parts <= Table(St(), dk).Keys && !found
          invariant forall pk :: pk !in parts ==> Slot(St(), dk, pk, path).None?
          decreases |parts|
        {
          var pk :| pk in parts;
          var part := heap.tables[table.value][pk];
          assert part.mounts == MountsRef(St(), dk, pk);
          if part.mounts.Some? && path in heap.mounts[part.mounts.value] {
            found, diskID, partitionID := true, dk, pk;
            assert Slot(St(), dk, pk, path).Some?;
            return;
          }
          assert Slot(St(), dk, pk, path).None?;
          parts := parts - {pk};
        }
        disks := disks - {dk};
      }
    }

    method SlotAt(diskID: string, partitionID: string, path: string) returns (mp: Option<MountPoint>)
      requires Valid()
      ensures mp == Slot(St(), diskID, partitionID, path)
    {
      if diskID !in index || heap.disks[index[diskID]].partitions.None? {
        return None;
      }
      var table := heap.disks[index[diskID]].partitions.value;
      assert TableRef(St(), diskID) == Some(table);
      if partitionID !in heap.tables[table] || heap.tables[table][partitionID].mounts.None? {
        return None;
      }
      var r := heap.tables[table][partitionID].mounts.value;
      assert MountsRef(St(), diskID, partitionID) == Some(r);
      mp := if path in heap.mounts[r] then Some(heap.mounts[r][path]) else None;
    }

    /** Stores a mount point with its share replaced, and its partition and disk again. */
    method SetShare(diskID: string, partitionID: string, path: string, mp: MountPoint, share: Option<Ref>)
      requires Valid() && Slot(St(), diskID, partitionID, path) == Some(mp)
      modifies this
      ensures Valid()
      ensures MountsRef(old(St()), diskID, partitionID).Some?
      ensures St() == PutSlot(old(St()), diskID, partitionID, path, mp.(share := share))
      ensures isNil == old(isNil) && index == old(index) && diskID in index
    {
      ghost var s := St();
      var table := heap.disks[index[diskID]].partitions.value;
      var part := heap.tables[table][partitionID];
      var r := part.mounts.value;
      assert MountsRef(St(), diskID, partitionID) == Some(r) && heap.mounts[r] == Mounts(St(), diskID, partitionID);
      heap := heap.(mounts := heap.mounts[r := heap.mounts[r][path := mp.(share := share)]]);
      StoredAgain(heap.tables, table, partitionID);
      heap := heap.(tables := heap.tables[table := heap.tables[table][partitionID := part]]);
      index := index[diskID := index[diskID]];
      assert St() == PutSlot(s, diskID, partitionID, path, mp.(share := share));
      PutSlotClosed(s, diskID, partitionID, path, mp.(share := share));
    }

    /** Detaches the share of that name from the first mount point carrying it that the search meets. */
    method RemoveMountPointShare(shareName: string) returns (ok: bool, disk: Option<Ref>)
      requires Valid()
      requires forall dk, pk, path :: Slot(St(), dk, pk, path).Some? && Slot(St(), dk, pk, path).value.share.Some? ==>
        Slot(St(), dk, pk, path).value.share.value in heap.shares
      modifies this
      ensures Valid()
      ensures Step(old(St()), RemoveShare(shareName), St())
      ensures isNil == old(isNil)
      ensures ok == Effective(old(St()), RemoveShare(shareName))
      ensures ok ==> exists dk, pk, path ::
          ShareRemoved(old(St()), shareName, dk, pk, path, St()) && disk == Some(index[dk])
      ensures !ok ==> disk == None
    {
      ok, disk := false, None;
      if isNil || shareName == "" {
        return;
      }
      ghost var s := St();
      var disks := index.Keys;
      while disks != {}
        invariant St() == s && Valid() && isNil == old(isNil) && disks <= index.Keys
        invariant forall dk, pk, path :: dk !in disks ==> !Carries(s, shareName, dk, pk, path)
        decreases |disks|
      {
        var dk :| dk in disks;
        var table := heap.disks[index[dk]].partitions;
        assert table == TableRef(St(), dk);
        var parts := if table.Some? then heap.tables[table.value].Keys else {};
        assert parts == Table(St(), dk).Keys;
        while parts != {}
          invariant St() == s && Valid() && isNil == old(isNil) && parts <= Table(s, dk).Keys
          invariant forall pk, path :: pk !in parts ==> !Carries(s, shareName, dk, pk, path)
          decreases |parts|
        {
          var pk :| pk in parts;
          var path, mp := CarrierIn(shareName, dk, pk);
          if path.Some? {
            SetShare(dk, pk, path.value, mp.value, None);
            assert ShareRemoved(s, shareName, dk, pk, path.value, St());
            return true, Some(index[dk]);
          }
          parts := parts - {pk};
        }
        disks := disks - {dk};
      }
    }

    /** The innermost loop of RemoveMountPointShare. */
    method CarrierIn(shareName: string, dk: string, pk: string) returns (found: Option<string>, mp: Option<MountPoint>)
      requires Valid() && PartitionAt(St(), dk, pk).Some?
      requires forall path :: Slot(St(), dk, pk, path).Some? && Slot(St(), dk, pk, path).value.share.Some? ==>
        Slot(St(), dk, pk, path).value.share.value in heap.shares
      ensures found.Some? ==> Carries(St(), shareName, dk, pk, found.value) && mp == Slot(St(), dk, pk, found.value)
      ensures found.None? ==> forall path :: !Carries(St(), shareName, dk, pk, path)
    {
      found, mp := None, None;
      var r := heap.tables[heap.disks[index[dk]].partitions.value][pk].mounts;
      assert r == MountsRef(St(), dk, pk);
      var m := if r.Some? then heap.mounts[r.value] else map[];
      assert m == Mounts(St(), dk, pk);
      var paths := m.Keys;
      while paths != {}
        invariant paths <= m.Keys
        invariant forall path :: path !in paths ==> !Carries(St(), shareName, dk, pk, path)
        decreases |paths|
      {
        var path :| path in paths;
        assert Slot(St(), dk, pk, path) == Some(m[path]);
        if m[path].share.Some? && heap.shares[m[path].share.value].name == shareName {
          return Some(path), Some(m[path]);
        }
        paths := paths - {path};
      }
    }

    method AddHDIdleDevice(diskID: string, device: Ref) returns (err: Option<Error>)
      requires Valid()
      modifies this
      ensures Valid()
      ensures Step(old(St()), SetHDIdle(diskID, device), St())
      ensures err.None? <==> Effective(old(St()), SetHDIdle(diskID, device))
      ensures err == Some(InvalidParameter) <==> !isNil && diskID == ""
      ensures isNil == old(isNil)
      ensures err == Some(NotFound) <==> isNil || (diskID != "" && diskID !in old(index))
      ensures err.None? ==> index == old(index) && heap.disks[index[diskID]].hdIdle == Some(device)
    {
      if isNil {
        return Some(NotFound);
      }
      if diskID == "" {
        return Some(InvalidParameter);
      }
      if diskID !in index {
        return Some(NotFound);
      }
      var d := index[diskID];
      ghost var s := St();
      heap := heap.(disks := heap.disks[d := heap.disks[d].(hdIdle := Some(device))]);
      index := index[diskID := d];
      StepKeepsClosed(s, SetHDIdle(diskID, device), St());
      return None;
    }

    method AddSmartInfo(diskID: string, smart: Ref) returns (err: Option<Error>)
      requires Valid()
      modifies this
      ensures Valid()
      ensures Step(old(St()), SetSmart(diskID, smart), St())
      ensures err.None? <==> Effective(old(St()), SetSmart(diskID, smart))
      ensures err == Some(InvalidParameter) <==> !isNil && diskID == ""
      ensures isNil == old(isNil)
      ensures err == Some(NotFound) <==> isNil || (diskID != "" && diskID !in old(index))
      ensures err.None? ==> index == old(index) && heap.disks[index[diskID]].smart == Some(smart)
    {
      if isNil {
        return Some(NotFound);
      }
      if diskID == "" {
        return Some(InvalidParameter);
      }
      if diskID !in index {
        return Some(NotFound);
      }
      var d := index[diskID];
      ghost var s := St();
      heap := heap.(disks := heap.disks[d := heap.disks[d].(smart := Some(smart))]);
      index := index[diskID := d];
      StepKeepsClosed(s, SetSmart(diskID, smart), St());
      return None;
    }
  }
}
