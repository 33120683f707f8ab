/**
 What the disk index keeps over every run, which entries an operation may change, and how
 attaching and detaching shares relate.
 */
module DiskLaws {
  import opened Wrappers
  import opened Disks

  // ---------- one map replaced, every other entry as before ----------

  function Lookup<T>(m: map<string, T>, k: string): Option<T> {
    if k in m then Some(m[k]) else None
  }

  lemma MountsReplaced(s: State, dk: string, pk: string, m: map<string, MountPoint>)
    requires Unaliased(s) && MountsRef(s, dk, pk).Some?
    ensures var s2 := PutMounts(s, MountsRef(s, dk, pk).value, m);
      && (forall a :: TableRef(s2, a) == TableRef(s, a))
      && (forall a, p :: PartitionAt(s2, a, p) == PartitionAt(s, a, p))
      && (forall a, p :: MountsRef(s2, a, p) == MountsRef(s, a, p))
      && (forall a, p, path ::
          Slot(s2, a, p, path) == if a == dk && p == pk then Lookup(m, path) else Slot(s, a, p, path))
  {
    var s2 := PutMounts(s, MountsRef(s, dk, pk).value, m);
    forall a, p
      ensures PartitionAt(s2, a, p) == PartitionAt(s, a, p) && MountsRef(s2, a, p) == MountsRef(s, a, p)
    {}
    forall a, p, path
      ensures Slot(s2, a, p, path) == if a == dk && p == pk then Lookup(m, path) else Slot(s, a, p, path)
    {
      assert MountsRef(s2, a, p) == MountsRef(s, a, p);
    }
  }

  lemma PutSlotExactly(s: State, dk: string, pk: string, path: string, mp: MountPoint)
    requires Unaliased(s) && MountsRef(s, dk, pk).Some?
    ensures var s2 := PutSlot(s, dk, pk, path, mp);
      && (forall a :: TableRef(s2, a) == TableRef(s, a))
      && (forall a, p :: PartitionAt(s2, a, p) == PartitionAt(s, a, p))
      && (forall a, p :: MountsRef(s2, a, p) == MountsRef(s, a, p))
      && (forall a, p, q :: Slot(s2, a, p, q) == if a == dk && p == pk && q == path then Some(mp) else Slot(s, a, p, q))
  {
    var m := Mounts(s, dk, pk)[path := mp];
    MountsReplaced(s, dk, pk, m);
    forall q ensures Lookup(m, q) == if q == path then Some(mp) else Slot(s, dk, pk, q) {}
  }

  lemma CutSlotExactly(s: State, dk: string, pk: string, path: string)
    requires Unaliased(s) && MountsRef(s, dk, pk).Some?
    ensures var s2 := CutSlot(s, dk, pk, path);
      && (forall a :: TableRef(s2, a) == TableRef(s, a))
      && (forall a, p :: PartitionAt(s2, a, p) == PartitionAt(s, a, p))
      && (forall a, p :: MountsRef(s2, a, p) == MountsRef(s, a, p))
      && (forall a, p, q :: Slot(s2, a, p, q) == if a == dk && p == pk && q == path then None else Slot(s, a, p, q))
  {
    var m := Mounts(s, dk, pk) - {path};
    MountsReplaced(s, dk, pk, m);
    forall q ensures Lookup(m, q) == if q == path then None else Slot(s, dk, pk, q) {}
  }

  /** Partitions and slots read through the heap alone. */
  function RefOf(p: Option<Partition>): Option<Ref> {
    if p.Some? then p.value.mounts else None
  }

  function SlotIn(h: Heap, r: Option<Ref>, path: string): Option<MountPoint> {
    if r.Some? && r.value in h.mounts then Lookup(h.mounts[r.value], path) else None
  }

  lemma SlotsFollowPartitions(s: State)
    ensures forall a, p :: MountsRef(s, a, p) == RefOf(PartitionAt(s, a, p))
    ensures forall a, p, q :: Slot(s, a, p, q) == SlotIn(s.heap, MountsRef(s, a, p), q)
  {
    forall a, p, q
      ensures Slot(s, a, p, q) == SlotIn(s.heap, MountsRef(s, a, p), q)
    {}
  }

  lemma PartitionAddedExactly(s: State, dk: string, p: Partition)
    requires Closed(s) && Unaliased(s) && dk in s.index && p.id.Some?
    requires forall k :: k in s.index && s.index[k] == s.index[dk] ==> k == dk
    ensures var s2 := PartitionAdded(s, dk, p);
      && s2.index == s.index && s2.heap.mounts == s.heap.mounts && s2.heap.disks.Keys == s.heap.disks.Keys
      && (forall a :: a != dk ==> TableRef(s2, a) == TableRef(s, a))
      && TableRef(s2, dk) == (if TableRef(s, dk).Some? then TableRef(s, dk) else Some(s.heap.next))
      && (forall a, q :: (a, q) != (dk, p.id.value) ==> PartitionAt(s2, a, q) == PartitionAt(s, a, q))
      && PartitionAt(s2, dk, p.id.value) == Some(p.(diskId := Some(dk)))
  {
    var s2 := PartitionAdded(s, dk, p);
    assert TableRef(s2, dk) == if TableRef(s, dk).Some? then TableRef(s, dk) else Some(s.heap.next);
    forall a | a != dk
      ensures TableRef(s2, a) == TableRef(s, a) && Table(s2, a) == Table(s, a)
    {}
    assert Table(s2, dk) == Table(s, dk)[p.id.value := p.(diskId := Some(dk))];
    forall a, q
      ensures PartitionAt(s2, a, q) ==
          if a == dk && q == p.id.value then Some(p.(diskId := Some(dk))) else PartitionAt(s, a, q)
    {}
  }

  lemma CutPartitionExactly(s: State, dk: string, pk: string)
    requires Unaliased(s) && TableRef(s, dk).Some?
    ensures var s2 := CutPartition(s, dk, pk);
      && s2.index == s.index && s2.heap.mounts == s.heap.mounts && s2.heap.disks == s.heap.disks
      && (forall a :: TableRef(s2, a) == TableRef(s, a))
      && (forall a, q :: PartitionAt(s2, a, q) == if a == dk && q == pk then None else PartitionAt(s, a, q))
  {
    var s2 := CutPartition(s, dk, pk);
    forall a
      ensures TableRef(s2, a) == TableRef(s, a)
      ensures Table(s2, a) == if a == dk then Table(s, dk) - {pk} else Table(s, a)
    {}
  }

  /** The partition as AddOrUpdateMountPoint leaves it. */
  function WithMountMap(s: State, dk: string, pk: string): Partition
    requires PartitionAt(s, dk, pk).Some?
  {
    var p := PartitionAt(s, dk, pk).value;
    if p.mounts.Some? then p else p.(mounts := Some(s.heap.next))
  }

  lemma WithMountsExactly(s: State, dk: string, pk: string)
    requires Closed(s) && Unaliased(s) && PartitionAt(s, dk, pk).Some?
    ensures var s2 := WithMounts(s, dk, pk);
      && s2.index == s.index && s2.heap.disks == s.heap.disks && Fresh(s2.heap)
      && (forall a :: TableRef(s2, a) == TableRef(s, a))
      && (forall a, q ::
          PartitionAt(s2, a, q) == if a == dk && q == pk then Some(WithMountMap(s, dk, pk)) else PartitionAt(s, a, q))
      && (forall a, q, path :: Slot(s2, a, q, path) == Slot(s, a, q, path))
  {
    var s2 := WithMounts(s, dk, pk);
    forall a
      ensures TableRef(s2, a) == TableRef(s, a)
      ensures Table(s2, a) == if a == dk then Table(s, dk)[pk := WithMountMap(s, dk, pk)] else Table(s, a)
    {}
    SlotsFollowPartitions(s);
    SlotsFollowPartitions(s2);
    forall a, q, path
      ensures Slot(s2, a, q, path) == Slot(s, a, q, path)
    {
      assert MountsRef(s, a, q).Some? ==> MountsRef(s, a, q).value in s.heap.mounts;
    }
  }

  /** A heap copy of a partition changes nothing that is reached by key. */
  lemma CopyExactly(s: State, p: Partition)
    ensures var s2 := WithPartitionCopy(s, p);
      && (forall a :: TableRef(s2, a) == TableRef(s, a))
      && (forall a, q :: PartitionAt(s2, a, q) == PartitionAt(s, a, q))
      && (forall a, q, path :: Slot(s2, a, q, path) == Slot(s, a, q, path))
  {
    var s2 := WithPartitionCopy(s, p);
    forall a
      ensures TableRef(s2, a) == TableRef(s, a) && Table(s2, a) == Table(s, a)
    {}
    SlotsFollowPartitions(s);
    SlotsFollowPartitions(s2);
  }

  // ---------- the invariant ----------

  lemma PutSlotKeepsInv(s: State, dk: string, pk: string, path: string, mp: MountPoint)
    requires Inv(s) && MountsRef(s, dk, pk).Some? && mp.path == path
    ensures Inv(PutSlot(s, dk, pk, path, mp))
  {
    hide TableRef, MountsRef, PartitionAt, Slot, Mounts;
    PutSlotExactly(s, dk, pk, path, mp);
  }

  lemma CutSlotKeepsInv(s: State, dk: string, pk: string, path: string)
    requires Inv(s) && MountsRef(s, dk, pk).Some?
    ensures Inv(CutSlot(s, dk, pk, path))
  {
    hide TableRef, MountsRef, PartitionAt, Slot, Mounts;
    CutSlotExactly(s, dk, pk, path);
  }

  /** Entries that are only dropped, never changed, keep the invariant. */
  lemma ShrinkKeepsInv(s: State, s2: State)
    requires Inv(s) && Fresh(s2.heap)
    requires s2.heap.mounts == s.heap.mounts && s2.heap.tables.Keys == s.heap.tables.Keys
    requires forall a :: a in s2.index ==> a in s.index && s2.index[a] == s.index[a] && s2.index[a] in s2.heap.disks &&
                                           s2.heap.disks[s2.index[a]].id == s.heap.disks[s.index[a]].id
    requires forall a :: TableRef(s2, a).Some? ==> TableRef(s2, a) == TableRef(s, a)
    requires forall a, q :: PartitionAt(s2, a, q).Some? ==> PartitionAt(s2, a, q) == PartitionAt(s, a, q)
    ensures Inv(s2)
  {
    SlotsFollowPartitions(s);
    SlotsFollowPartitions(s2);
    hide TableRef, PartitionAt, MountsRef, Slot;
    forall a, q
      ensures MountsRef(s2, a, q).Some? ==> MountsRef(s2, a, q) == MountsRef(s, a, q)
    {}
    forall a, q, path
      ensures Slot(s2, a, q, path).Some? ==> Slot(s2, a, q, path) == Slot(s, a, q, path)
    {}
  }

  lemma CutPartitionKeepsInv(s: State, dk: string, pk: string)
    requires Inv(s) && TableRef(s, dk).Some?
    ensures Inv(CutPartition(s, dk, pk))
  {
    CutPartitionExactly(s, dk, pk);
    ShrinkKeepsInv(s, CutPartition(s, dk, pk));
  }

  lemma RemoveDiskKeepsInv(s: State, id: string)
    requires Inv(s)
    ensures Inv(s.(index := s.index - {id}))
  {
    var s2 := s.(index := s.index - {id});
    forall a
      ensures TableRef(s2, a).Some? ==> TableRef(s2, a) == TableRef(s, a) && Table(s2, a) == Table(s, a)
      ensures TableRef(s2, a).None? ==> Table(s2, a) == map[]
    {}
    ShrinkKeepsInv(s, s2);
  }

  /** Replacing fields of a disk record other than its id and its partition map. */
  lemma PutDiskExactly(s: State, dk: string, d: Disk)
    requires dk in s.index && s.index[dk] in s.heap.disks
    requires d.id == s.heap.disks[s.index[dk]].id && d.partitions == s.heap.disks[s.index[dk]].partitions
    ensures var s2 := PutDisk(s, s.index[dk], d);
      && (forall a :: TableRef(s2, a) == TableRef(s, a))
      && (forall a, q :: PartitionAt(s2, a, q) == PartitionAt(s, a, q))
      && (forall a, q, path :: Slot(s2, a, q, path) == Slot(s, a, q, path))
      && (Inv(s) ==> Inv(s2))
  {
    var s2 := PutDisk(s, s.index[dk], d);
    forall a
      ensures TableRef(s2, a) == TableRef(s, a) && Table(s2, a) == Table(s, a)
    {}
    SlotsFollowPartitions(s);
    SlotsFollowPartitions(s2);
    if Inv(s) { ShrinkKeepsInv(s, s2); }
  }

  lemma WithMountsReads(s: State, dk: string, pk: string)
    requires Closed(s) && Unaliased(s) && PartitionAt(s, dk, pk).Some?
    ensures var s2 := WithMounts(s, dk, pk);
      && (forall a, q :: MountsRef(s2, a, q) == RefOf(PartitionAt(s2, a, q)))
      && s2.heap.mounts.Keys >= s.heap.mounts.Keys && s2.heap.tables.Keys >= s.heap.tables.Keys
      && RefOf(PartitionAt(s2, dk, pk)).Some? && RefOf(PartitionAt(s2, dk, pk)).value in s2.heap.mounts
      && (RefOf(PartitionAt(s, dk, pk)).None? ==> RefOf(PartitionAt(s2, dk, pk)).value == s.heap.next)
  {
    WithMountsExactly(s, dk, pk);
    SlotsFollowPartitions(s);
    SlotsFollowPartitions(WithMounts(s, dk, pk));
    hide TableRef, PartitionAt, Slot;
  }

  lemma WithMountsKeepsInv(s: State, dk: string, pk: string)
    requires Inv(s) && PartitionAt(s, dk, pk).Some?
    ensures Inv(WithMounts(s, dk, pk)) && MountsRef(WithMounts(s, dk, pk), dk, pk).Some?
  {
    hide TableRef, MountsRef, PartitionAt, Slot, Table, WithMounts;
    WithMountsExactly(s, dk, pk);
    WithMountsReads(s, dk, pk);
    SlotsFollowPartitions(s);
  }

  lemma CopyKeepsInv(s: State, p: Partition)
    requires Inv(s)
    ensures Inv(WithPartitionCopy(s, p))
  {
    CopyExactly(s, p);
    SlotsFollowPartitions(s);
    SlotsFollowPartitions(WithPartitionCopy(s, p));
    hide TableRef, MountsRef, PartitionAt, Slot;
  }

  /** A mount map that exists, is keyed by path and is used by no partition but possibly (dk, pk). */
  ghost predicate MountsFit(s: State, dk: string, pk: string, r: Option<Ref>) {
    r.Some? ==>
      && r.value in s.heap.mounts
      && (forall path :: path in s.heap.mounts[r.value] ==> s.heap.mounts[r.value][path].path == path)
      && (forall a, q :: (a, q) != (dk, pk) ==> MountsRef(s, a, q) != r)
  }

  /** `s2` is `s` with the partition `p` under (dk, pk). */
  ghost predicate OneMorePartition(s: State, s2: State, dk: string, pk: string, p: Partition) {
    && s2.index == s.index && s2.heap.mounts == s.heap.mounts
    && (forall a :: a in s.index ==> s2.index[a] in s2.heap.disks && s.index[a] in s.heap.disks &&
                                     s2.heap.disks[s2.index[a]].id == s.heap.disks[s.index[a]].id)
    && (forall a :: a != dk ==> TableRef(s2, a) == TableRef(s, a))
    && (forall a, q :: PartitionAt(s2, a, q) == if a == dk && q == pk then Some(p) else PartitionAt(s, a, q))
  }

  lemma OneMorePartitionSlots(s: State, s2: State, dk: string, pk: string, p: Partition)
    requires OneMorePartition(s, s2, dk, pk, p)
    ensures forall a, q :: MountsRef(s2, a, q) == if a == dk && q == pk then p.mounts else MountsRef(s, a, q)
    ensures forall a, q, path ::
        Slot(s2, a, q, path) == if a == dk && q == pk then SlotIn(s.heap, p.mounts, path) else Slot(s, a, q, path)
  {
    SlotsFollowPartitions(s);
    SlotsFollowPartitions(s2);
    hide TableRef, PartitionAt, MountsRef, Slot;
  }

  lemma OneMorePartitionKeyed(s: State, s2: State, dk: string, pk: string, p: Partition)
    requires OneMorePartition(s, s2, dk, pk, p) && Keyed(s)
    requires p.id == Some(pk) && p.diskId == Some(dk) && MountsFit(s, dk, pk, p.mounts)
    ensures Keyed(s2)
  {
    OneMorePartitionSlots(s, s2, dk, pk, p);
    hide TableRef, PartitionAt, MountsRef, Slot;
  }

  lemma OneMorePartitionUnaliased(s: State, s2: State, dk: string, pk: string, p: Partition)
    requires OneMorePartition(s, s2, dk, pk, p) && Unaliased(s) && MountsFit(s, dk, pk, p.mounts)
    requires forall a :: a != dk && TableRef(s, a).Some? ==> TableRef(s, a) != TableRef(s2, dk)
    ensures Unaliased(s2)
  {
    OneMorePartitionSlots(s, s2, dk, pk, p);
    hide TableRef, PartitionAt, MountsRef, Slot;
  }

  lemma PartitionAddedIsOneMore(s: State, dk: string, p: Partition)
    requires Inv(s) && dk in s.index && p.id.Some?
    ensures var s2 := PartitionAdded(s, dk, p);
      && OneMorePartition(s, s2, dk, p.id.value, p.(diskId := Some(dk)))
      && Fresh(s2.heap) && s2.heap.tables.Keys >= s.heap.tables.Keys
      && TableRef(s2, dk).Some? && TableRef(s2, dk).value in s2.heap.tables
      && (forall a :: a != dk && TableRef(s, a).Some? ==> TableRef(s, a) != TableRef(s2, dk))
  {
    PartitionAddedExactly(s, dk, p);
    hide MountsRef, Slot;
  }

  lemma PartitionAddedKeepsInv(s: State, dk: string, p: Partition)
    requires Inv(s) && dk in s.index && p.id.Some? && MountsFit(s, dk, p.id.value, p.mounts)
    ensures Inv(PartitionAdded(s, dk, p))
  {
    hide TableRef, PartitionAt, MountsRef, Slot, PartitionAdded, Fresh, Keyed, Unaliased;
    var s2 := PartitionAdded(s, dk, p);
    PartitionAddedIsOneMore(s, dk, p);
    OneMorePartitionSlots(s, s2, dk, p.id.value, p.(diskId := Some(dk)));
    OneMorePartitionKeyed(s, s2, dk, p.id.value, p.(diskId := Some(dk)));
    OneMorePartitionUnaliased(s, s2, dk, p.id.value, p.(diskId := Some(dk)));
  }

  /** AddPartition keeps the invariant for exactly the partitions whose mount map fits. */
  lemma AddPartitionExactly(s: State, dk: string, p: Partition)
    requires Inv(s) && dk in s.index && p.id.Some?
    ensures Inv(PartitionAdded(s, dk, p)) <==> MountsFit(s, dk, p.id.value, p.mounts)
  {
    if MountsFit(s, dk, p.id.value, p.mounts) {
      PartitionAddedKeepsInv(s, dk, p);
    }
    if Inv(PartitionAdded(s, dk, p)) {
      PartitionNeeded(s, dk, p);
    }
  }

  lemma PartitionNeeded(s: State, dk: string, p: Partition)
    requires Inv(s) && dk in s.index && p.id.Some? && Inv(PartitionAdded(s, dk, p))
    ensures MountsFit(s, dk, p.id.value, p.mounts)
  {
    hide TableRef, PartitionAt, MountsRef, Slot, PartitionAdded, Fresh;
    var s2, pk := PartitionAdded(s, dk, p), p.id.value;
    PartitionAddedIsOneMore(s, dk, p);
    OneMorePartitionSlots(s, s2, dk, pk, p.(diskId := Some(dk)));
    if p.mounts.Some? {
      assert MountsRef(s2, dk, pk) == p.mounts;
      var m := s.heap.mounts[p.mounts.value];
      forall path | path in m
        ensures m[path].path == path
      {
        assert Slot(s2, dk, pk, path) == Some(m[path]);
      }
      forall a, q | (a, q) != (dk, pk)
        ensures MountsRef(s, a, q) != p.mounts
      {
        assert MountsRef(s2, a, q) == MountsRef(s, a, q);
      }
    }
  }

  function TableOf(h: Heap, d: Disk): map<string, Partition> {
    if d.partitions.Some? && d.partitions.value in h.tables then h.tables[d.partitions.value] else map[]
  }

  /** The disk brings partition and mount maps of its own, keyed like the rest. The code
      stores the disk without looking at them. */
  ghost predicate DiskFits(s: State, id: string, d: Disk) {
    && d.id == Some(id)
    && (d.partitions.Some? ==> d.partitions.value in s.heap.tables)
    && (forall a :: a != id && TableRef(s, a).Some? ==> TableRef(s, a) != d.partitions)
    && forall pk :: pk in TableOf(s.heap, d) ==> DiskPartitionFits(s, id, TableOf(s.heap, d), pk)
  }

  ghost predicate DiskPartitionFits(s: State, id: string, t: map<string, Partition>, pk: string)
    requires pk in t
  {
    && t[pk].id == Some(pk) && t[pk].diskId == Some(id)
    && (t[pk].mounts.Some? ==>
          && t[pk].mounts.value in s.heap.mounts
          && (forall path :: path in s.heap.mounts[t[pk].mounts.value] ==>
              s.heap.mounts[t[pk].mounts.value][path].path == path)
          && (forall a, q :: a != id ==> MountsRef(s, a, q) != t[pk].mounts)
          && (forall q :: q in t && t[q].mounts == t[pk].mounts ==> q == pk))
  }

  lemma DiskAddedExactly(s: State, id: string, d: Ref)
    requires d in s.heap.disks
    ensures var s2 := s.(index := s.index[id := d]);
      && TableRef(s2, id) == s.heap.disks[d].partitions
      && (forall a :: a != id ==> TableRef(s2, a) == TableRef(s, a))
      && (forall a, q :: a != id ==> PartitionAt(s2, a, q) == PartitionAt(s, a, q))
      && (forall q :: PartitionAt(s2, id, q) == Lookup(TableOf(s.heap, s.heap.disks[d]), q))
  {
    var s2 := s.(index := s.index[id := d]);
    forall a
      ensures Table(s2, a) == if a == id then TableOf(s.heap, s.heap.disks[d]) else Table(s, a)
    {}
  }

  lemma DiskAddedSlots(s: State, id: string, d: Ref)
    requires d in s.heap.disks
    ensures var s2 := s.(index := s.index[id := d]); var t := TableOf(s.heap, s.heap.disks[d]);
      && (forall a, q :: MountsRef(s2, a, q) == if a == id then RefOf(Lookup(t, q)) else MountsRef(s, a, q))
      && (forall a, q, path ::
          Slot(s2, a, q, path) == if a == id then SlotIn(s.heap, RefOf(Lookup(t, q)), path) else Slot(s, a, q, path))
  {
    var s2 := s.(index := s.index[id := d]);
    DiskAddedExactly(s, id, d);
    SlotsFollowPartitions(s);
    SlotsFollowPartitions(s2);
    hide TableRef, PartitionAt, MountsRef, Slot, TableOf;
  }

  lemma DiskAddedUnaliased(s: State, id: string, d: Ref)
    requires Closed(s) && Unaliased(s) && d in s.heap.disks && DiskFits(s, id, s.heap.disks[d])
    ensures var s2 := s.(index := s.index[id := d]); Closed(s2) && Unaliased(s2)
  {
    hide TableRef, PartitionAt, MountsRef, Slot, TableOf;
    DiskAddedExactly(s, id, d);
    DiskAddedSlots(s, id, d);
  }

  lemma DiskAddedKeyed(s: State, id: string, d: Ref)
    requires Keyed(s) && d in s.heap.disks && DiskFits(s, id, s.heap.disks[d])
    ensures Keyed(s.(index := s.index[id := d]))
  {
    hide TableRef, PartitionAt, MountsRef, Slot, TableOf;
    DiskAddedExactly(s, id, d);
    DiskAddedSlots(s, id, d);
  }

  /** AddOrUpdate keeps the invariant for exactly the disks whose own maps fit. */
  lemma AddDiskExactly(s: State, d: Ref)
    requires Inv(s) && d in s.heap.disks && s.heap.disks[d].id.Some?
    ensures var id := s.heap.disks[d].id.value;
      Inv(s.(index := s.index[id := d])) <==> DiskFits(s, id, s.heap.disks[d])
  {
    var id := s.heap.disks[d].id.value;
    var s2 := s.(index := s.index[id := d]);
    if DiskFits(s, id, s.heap.disks[d]) {
      DiskAddedUnaliased(s, id, d);
      DiskAddedKeyed(s, id, d);
    }
    if Inv(s2) {
      DiskNeeded(s, id, d);
    }
  }

  lemma DiskNeeded(s: State, id: string, d: Ref)
    requires d in s.heap.disks && s.heap.disks[d].id == Some(id)
    requires Inv(s.(index := s.index[id := d]))
    ensures DiskFits(s, id, s.heap.disks[d])
  {
    hide TableRef, PartitionAt, MountsRef, Slot, TableOf;
    var s2 := s.(index := s.index[id := d]);
    var t := TableOf(s.heap, s.heap.disks[d]);
    DiskAddedExactly(s, id, d);
    DiskAddedSlots(s, id, d);
    forall pk | pk in t
      ensures DiskPartitionFits(s, id, t, pk)
    {
      assert PartitionAt(s2, id, pk) == Some(t[pk]);
      assert MountsRef(s2, id, pk) == t[pk].mounts;
      if t[pk].mounts.Some? {
        var m := s.heap.mounts[t[pk].mounts.value];
        forall path | path in m
          ensures m[path].path == path
        {
          assert Slot(s2, id, pk, path) == Some(m[path]);
        }
        forall q | q in t && t[q].mounts == t[pk].mounts
          ensures q == pk
        {
          assert MountsRef(s2, id, q) == t[q].mounts;
        }
        forall a, q | a != id
          ensures MountsRef(s, a, q) != t[pk].mounts
        {
          assert MountsRef(s2, a, q) == MountsRef(s, a, q);
        }
      }
    }
    forall a | a != id && TableRef(s, a).Some?
      ensures TableRef(s, a) != s.heap.disks[d].partitions
    {
      assert TableRef(s2, a) == TableRef(s, a);
    }
  }

  // ---------- the operations ----------

  /** What the caller must bring for the index to stay well formed: for a disk and for a
      partition with a mount map, that these maps fit. */
  ghost predicate ArgumentsFit(s: State, op: Op) {
    match op
    case AddDisk(d) => d in s.heap.disks && s.heap.disks[d].id.Some? ==>
        DiskFits(s, s.heap.disks[d].id.value, s.heap.disks[d])
    case AddPartition(dk, p) => p.id.Some? ==> MountsFit(s, dk, p.id.value, p.mounts)
    case _ => true
  }

  lemma MountPointPutIsPutSlot(s: State, dk: string, pk: string, mp: MountPoint) returns (s1: State, s2: State)
    requires Inv(s) && PartitionAt(s, dk, pk).Some?
    ensures s1 == WithMounts(s, dk, pk)
    ensures s2 == if mp.partition.None? then WithPartitionCopy(s1, WithMountMap(s, dk, pk)) else s1
    ensures Inv(s2) && MountsRef(s2, dk, pk).Some?
    ensures MountPointPut(s, dk, pk, mp) == PutSlot(s2, dk, pk, mp.path, Completed(s1, WithMountMap(s, dk, pk), mp))
  {
    hide WithMounts, WithPartitionCopy, Inv, Slot;
    s1 := WithMounts(s, dk, pk);
    s2 := if mp.partition.None? then WithPartitionCopy(s1, WithMountMap(s, dk, pk)) else s1;
    WithMountsKeepsInv(s, dk, pk);
    CopyKeepsInv(s1, WithMountMap(s, dk, pk));
    SlotMapThere(s, s1, s2, dk, pk);
  }

  /** The mount map the new mount point goes into is the old one, or empty. */
  lemma SlotMapThere(s: State, s1: State, s2: State, dk: string, pk: string)
    requires Inv(s) && PartitionAt(s, dk, pk).Some? && s1 == WithMounts(s, dk, pk)
    requires s2 == s1 || s2 == WithPartitionCopy(s1, WithMountMap(s, dk, pk))
    ensures MountsRef(s2, dk, pk) == WithMountMap(s, dk, pk).mounts
    ensures Mounts(s2, dk, pk) == Mounts(s, dk, pk)
  {
    hide Unaliased, Keyed;
    WithMountsExactly(s, dk, pk);
    CopyExactly(s1, WithMountMap(s, dk, pk));
    SlotsFollowPartitions(s2);
    hide Slot, TableRef, PartitionAt;
  }

  /** Every operation keeps the index well formed. */
  lemma StepKeepsInv(s: State, op: Op, s2: State)
    requires Inv(s) && ArgumentsFit(s, op) && Step(s, op, s2)
    ensures Inv(s2)
  {
    hide Inv, PutSlot, CutSlot, CutPartition, PartitionAdded, MountPointPut, DiskFits, MountsFit;
    if Effective(s, op) {
      match op {
        case AddDisk(d) => AddDiskExactly(s, d);
        case RemoveDisk(id) => RemoveDiskKeepsInv(s, id);
        case PutMountPoint(dk, pk, mp) =>
          var s1, s3 := MountPointPutIsPutSlot(s, dk, pk, mp);
          PutSlotKeepsInv(s3, dk, pk, mp.path, Completed(s1, WithMountMap(s, dk, pk), mp));
        case RemoveMountPoint(dk, pk, path) => CutSlotKeepsInv(s, dk, pk, path);
        case AddPartition(dk, p) => PartitionAddedKeepsInv(s, dk, p);
        case RemovePartition(dk, pk) => CutPartitionKeepsInv(s, dk, pk);
        case AddShare(share) =>
          var dk, pk, path :| ShareAdded(s, share.value, dk, pk, path, s2);
          SlotKeyed(s, dk, pk, path);
          PutSlotKeepsInv(s, dk, pk, path, Slot(s, dk, pk, path).value.(share := share));
        case RemoveShare(name) =>
          var dk, pk, path :| ShareRemoved(s, name, dk, pk, path, s2);
          SlotKeyed(s, dk, pk, path);
          PutSlotKeepsInv(s, dk, pk, path, Slot(s, dk, pk, path).value.(share := None));
        case SetHDIdle(dk, x) => PutDiskExactly(s, dk, s.heap.disks[s.index[dk]].(hdIdle := Some(x)));
        case SetSmart(dk, x) => PutDiskExactly(s, dk, s.heap.disks[s.index[dk]].(smart := Some(x)));
      }
    }
  }

  lemma SlotKeyed(s: State, dk: string, pk: string, path: string)
    requires Inv(s) && Slot(s, dk, pk, path).Some?
    ensures Slot(s, dk, pk, path).value.path == path && MountsRef(s, dk, pk).Some?
  {}

  // ---------- pointers never dangle ----------

  /** The maps of an argument exist; true of every pointer a Go program has. */
  ghost predicate ArgumentsExist(s: State, op: Op) {
    match op
    case AddDisk(d) =>
      d in s.heap.disks && s.heap.disks[d].partitions.Some? ==>
        && s.heap.disks[d].partitions.value in s.heap.tables
        && TableExists(s.heap, s.heap.tables[s.heap.disks[d].partitions.value])
    case AddPartition(_, p) => p.mounts.Some? ==> p.mounts.value in s.heap.mounts
    case _ => true
  }

  ghost predicate TableExists(h: Heap, t: map<string, Partition>) {
    forall k :: k in t && t[k].mounts.Some? ==> t[k].mounts.value in h.mounts
  }

  lemma TableOfClosed(s: State, dk: string)
    requires Closed(s)
    ensures TableExists(s.heap, Table(s, dk))
  {
    forall k | k in Table(s, dk) && Table(s, dk)[k].mounts.Some?
      ensures Table(s, dk)[k].mounts.value in s.heap.mounts
    {
      assert MountsRef(s, dk, k).Some?;
    }
  }

  lemma MountsWrittenClosed(s: State, r: Ref, m: map<string, MountPoint>)
    requires Closed(s) && r in s.heap.mounts
    ensures Closed(PutMounts(s, r, m))
  {
    SameRefs(s, PutMounts(s, r, m));
    hide TableRef, MountsRef;
  }

  lemma SameRefs(s: State, s2: State)
    requires s2.index == s.index && s2.heap.disks == s.heap.disks && s2.heap.tables == s.heap.tables
    ensures forall a :: TableRef(s2, a) == TableRef(s, a)
    ensures forall a, p :: MountsRef(s2, a, p) == MountsRef(s, a, p)
  {}

  lemma TableWrittenClosed(s: State, t: Ref, m: map<string, Partition>)
    requires Closed(s) && t in s.heap.tables && TableExists(s.heap, m)
    ensures Closed(PutTable(s, t, m))
  {
    var s2 := PutTable(s, t, m);
    forall a
      ensures TableRef(s2, a) == TableRef(s, a) && TableExists(s.heap, Table(s2, a))
    {
      TableOfClosed(s, a);
    }
  }

  lemma DiskWrittenClosed(s: State, r: Ref, d: Disk)
    requires Closed(s) && r in s.heap.disks
    requires d.partitions.Some? ==>
        d.partitions.value in s.heap.tables && TableExists(s.heap, s.heap.tables[d.partitions.value])
    ensures Closed(PutDisk(s, r, d))
  {
    var s2 := PutDisk(s, r, d);
    forall a
      ensures TableExists(s.heap, Table(s2, a))
      ensures TableRef(s2, a).Some? ==> TableRef(s2, a).value in s.heap.tables
    {
      TableOfClosed(s, a);
      assert TableRef(s, a).Some? ==> TableRef(s, a).value in s.heap.tables;
    }
  }

  lemma NewMountsClosed(s: State)
    requires Closed(s)
    ensures Closed(s.(heap := s.heap.(mounts := s.heap.mounts[s.heap.next := map[]], next := s.heap.next + 1)))
  {
    SameRefs(s, s.(heap := s.heap.(mounts := s.heap.mounts[s.heap.next := map[]], next := s.heap.next + 1)));
    hide TableRef, MountsRef;
  }

  lemma NewTableClosed(s: State)
    requires Closed(s)
    ensures Closed(s.(heap := s.heap.(tables := s.heap.tables[s.heap.next := map[]], next := s.heap.next + 1)))
  {
    var s2 := s.(heap := s.heap.(tables := s.heap.tables[s.heap.next := map[]], next := s.heap.next + 1));
    forall a
      ensures TableRef(s2, a) == TableRef(s, a) && TableExists(s.heap, Table(s2, a))
    {
      TableOfClosed(s, a);
    }
  }

  lemma CopyClosed(s: State, p: Partition)
    requires Closed(s)
    ensures Closed(WithPartitionCopy(s, p))
  {
    SameRefs(s, WithPartitionCopy(s, p));
    hide TableRef, MountsRef;
  }

  lemma WithMountsClosed(s: State, dk: string, pk: string)
    requires Closed(s) && PartitionAt(s, dk, pk).Some?
    ensures Closed(WithMounts(s, dk, pk)) && s.heap.mounts.Keys <= WithMounts(s, dk, pk).heap.mounts.Keys
    ensures WithMountMap(s, dk, pk).mounts.value in WithMounts(s, dk, pk).heap.mounts
  {
    if MountsRef(s, dk, pk).None? {
      var s1 := s.(heap := s.heap.(mounts := s.heap.mounts[s.heap.next := map[]], next := s.heap.next + 1));
      NewMountsClosed(s);
      SameRefs(s, s1);
      TableOfClosed(s, dk);
      TableWrittenClosed(s1, TableRef(s, dk).value, Table(s, dk)[pk := WithMountMap(s, dk, pk)]);
    }
  }

  lemma MountPointPutClosed(s: State, dk: string, pk: string, mp: MountPoint)
    requires Closed(s) && PartitionAt(s, dk, pk).Some?
    ensures Closed(MountPointPut(s, dk, pk, mp))
  {
    hide Closed, WithMounts;
    var s1, p := WithMounts(s, dk, pk), WithMountMap(s, dk, pk);
    WithMountsClosed(s, dk, pk);
    CopyClosed(s1, p);
    var s2 := if mp.partition.None? then WithPartitionCopy(s1, p) else s1;
    MountsWrittenClosed(s2, p.mounts.value, Mounts(s, dk, pk)[mp.path := Completed(s1, p, mp)]);
  }

  lemma WithTableClosed(s: State, dk: string)
    requires Closed(s) && dk in s.index
    ensures Closed(WithTable(s, dk)) && WithTable(s, dk).heap.mounts == s.heap.mounts
    ensures (if TableRef(s, dk).Some? then TableRef(s, dk).value else s.heap.next) in WithTable(s, dk).heap.tables
  {
    if TableRef(s, dk).None? {
      NewTableClosed(s);
      var s1 := s.(heap := s.heap.(tables := s.heap.tables[s.heap.next := map[]], next := s.heap.next + 1));
      DiskWrittenClosed(s1, s.index[dk], s.heap.disks[s.index[dk]].(partitions := Some(s.heap.next)));
    }
  }

  lemma PartitionAddedClosed(s: State, dk: string, p: Partition)
    requires Closed(s) && dk in s.index && p.id.Some? && (p.mounts.Some? ==> p.mounts.value in s.heap.mounts)
    ensures Closed(PartitionAdded(s, dk, p))
  {
    WithTableClosed(s, dk);
    TableOfClosed(s, dk);
    hide Closed, WithTable;
    var t := if TableRef(s, dk).Some? then TableRef(s, dk).value else s.heap.next;
    TableWrittenClosed(WithTable(s, dk), t, Table(s, dk)[p.id.value := p.(diskId := Some(dk))]);
  }

  lemma AddDiskClosed(s: State, d: Ref)
    requires Closed(s) && d in s.heap.disks && s.heap.disks[d].id.Some? && ArgumentsExist(s, AddDisk(d))
    ensures Closed(s.(index := s.index[s.heap.disks[d].id.value := d]))
  {
    var s2 := s.(index := s.index[s.heap.disks[d].id.value := d]);
    forall a
      ensures TableExists(s.heap, Table(s2, a))
      ensures TableRef(s2, a).Some? ==> TableRef(s2, a).value in s.heap.tables
    {
      TableOfClosed(s, a);
      assert TableRef(s, a).Some? ==> TableRef(s, a).value in s.heap.tables;
    }
  }

  lemma RemoveDiskClosed(s: State, id: string)
    requires Closed(s)
    ensures Closed(s.(index := s.index - {id}))
  {
    var s2 := s.(index := s.index - {id});
    forall a
      ensures TableExists(s.heap, Table(s2, a))
      ensures TableRef(s2, a).Some? ==> TableRef(s2, a).value in s.heap.tables
    {
      TableOfClosed(s, a);
      assert TableRef(s, a).Some? ==> TableRef(s, a).value in s.heap.tables;
    }
  }

  lemma PutDiskClosed(s: State, dk: string, d: Disk)
    requires Closed(s) && dk in s.index && d.partitions == s.heap.disks[s.index[dk]].partitions
    ensures Closed(PutDisk(s, s.index[dk], d))
  {
    TableOfClosed(s, dk);
    DiskWrittenClosed(s, s.index[dk], d);
  }

  lemma CutPartitionClosed(s: State, dk: string, pk: string)
    requires Closed(s) && TableRef(s, dk).Some?
    ensures Closed(CutPartition(s, dk, pk))
  {
    TableOfClosed(s, dk);
    TableWrittenClosed(s, TableRef(s, dk).value, Table(s, dk) - {pk});
  }

  /** No operation makes a pointer dangle, however its maps are shared or keyed. */
  lemma StepKeepsClosed(s: State, op: Op, s2: State)
    requires Closed(s) && ArgumentsExist(s, op) && Step(s, op, s2)
    ensures Closed(s2)
  {
    hide Fresh, TableExists, Slot, Mounts, PartitionAdded, MountPointPut, CutPartition, PutDisk;
    if Effective(s, op) {
      match op {
        case AddDisk(d) => AddDiskClosed(s, d);
        case RemoveDisk(id) => RemoveDiskClosed(s, id);
        case PutMountPoint(dk, pk, mp) => MountPointPutClosed(s, dk, pk, mp);
        case RemoveMountPoint(dk, pk, path) => MountsWrittenClosed(s, MountsRef(s, dk, pk).value,
            Mounts(s, dk, pk) - {path});
        case AddPartition(dk, p) => PartitionAddedClosed(s, dk, p);
        case RemovePartition(dk, pk) => CutPartitionClosed(s, dk, pk);
        case AddShare(share) =>
          var dk, pk, path :| ShareAdded(s, share.value, dk, pk, path, s2);
          PutSlotClosed(s, dk, pk, path, Slot(s, dk, pk, path).value.(share := share));
        case RemoveShare(name) =>
          var dk, pk, path :| ShareRemoved(s, name, dk, pk, path, s2);
          PutSlotClosed(s, dk, pk, path, Slot(s, dk, pk, path).value.(share := None));
        case SetHDIdle(dk, x) => PutDiskClosed(s, dk, s.heap.disks[s.index[dk]].(hdIdle := Some(x)));
        case SetSmart(dk, x) => PutDiskClosed(s, dk, s.heap.disks[s.index[dk]].(smart := Some(x)));
      }
    }
  }

  lemma PutSlotClosed(s: State, dk: string, pk: string, path: string, mp: MountPoint)
    requires Closed(s) && MountsRef(s, dk, pk).Some?
    ensures Closed(PutSlot(s, dk, pk, path, mp))
  {
    MountsWrittenClosed(s, MountsRef(s, dk, pk).value, Mounts(s, dk, pk)[path := mp]);
  }

  // ---------- runs ----------

  ghost predicate Run(states: seq<State>, ops: seq<Op>) {
    && |states| == |ops| + 1
    && forall i :: 0 <= i < |ops| ==> ArgumentsFit(states[i], ops[i]) && Step(states[i], ops[i], states[i + 1])
  }

  /** Over every run of operations each key repeats what its entry says of itself, no pointer
      of the index dangles and no two entries share a map. */
  lemma {:induction false} RunKeepsInv(states: seq<State>, ops: seq<Op>)
    requires Run(states, ops) && Inv(states[0])
    ensures Inv(states[|ops|])
  {
    hide Inv, Step, ArgumentsFit;
    if ops != [] {
      StepKeepsInv(states[0], ops[0], states[1]);
      RunKeepsInv(states[1..], ops[1..]);
    }
  }

  /** The slots an operation may change. */
  ghost predicate Addressed(s: State, op: Op, dk: string, pk: string, path: string) {
    match op
    case AddDisk(d) => d in s.heap.disks && s.heap.disks[d].id == Some(dk)
    case RemoveDisk(id) => id == dk
    case PutMountPoint(a, q, mp) => a == dk && q == pk && mp.path == path
    case RemoveMountPoint(a, q, p) => a == dk && q == pk && p == path
    case AddPartition(a, p) => a == dk && p.id == Some(pk)
    case RemovePartition(a, q) => a == dk && q == pk
    case AddShare(share) => share.Some? && ShareTarget(s, share.value, dk, pk, path)
    case RemoveShare(name) => Carries(s, name, dk, pk, path)
    case SetHDIdle(_, _) => false
    case SetSmart(_, _) => false
  }

  lemma StepChangesOnlyAddressed(s: State, op: Op, s2: State, dk: string, pk: string, path: string)
    requires Inv(s) && Step(s, op, s2) && !Addressed(s, op, dk, pk, path)
    ensures Slot(s2, dk, pk, path) == Slot(s, dk, pk, path)
  {
    hide PutSlot, CutSlot, CutPartition, PartitionAdded, MountPointPut, Slot, Keyed;
    if Effective(s, op) {
      match op {
        case AddDisk(d) => DiskAddedSlots(s, s.heap.disks[d].id.value, d);
        case RemoveDisk(id) => RemoveDiskSlots(s, id, dk, pk, path);
        case PutMountPoint(a, q, mp) =>
          var s1, s3 := MountPointPutIsPutSlot(s, a, q, mp);
          PutSlotExactly(s3, a, q, mp.path, Completed(s1, WithMountMap(s, a, q), mp));
          WithMountsExactly(s, a, q);
          CopyExactly(s1, WithMountMap(s, a, q));
        case RemoveMountPoint(a, q, p) => CutSlotExactly(s, a, q, p);
        case AddPartition(a, p) => PartitionAddedSlots(s, a, p, dk, pk, path);
        case RemovePartition(a, q) => CutPartitionSlots(s, a, q, dk, pk, path);
        case AddShare(share) =>
          var a, q, p :| ShareAdded(s, share.value, a, q, p, s2);
          PutSlotExactly(s, a, q, p, Slot(s, a, q, p).value.(share := share));
        case RemoveShare(name) =>
          var a, q, p :| ShareRemoved(s, name, a, q, p, s2);
          PutSlotExactly(s, a, q, p, Slot(s, a, q, p).value.(share := None));
        case SetHDIdle(a, x) => PutDiskExactly(s, a, s.heap.disks[s.index[a]].(hdIdle := Some(x)));
        case SetSmart(a, x) => PutDiskExactly(s, a, s.heap.disks[s.index[a]].(smart := Some(x)));
      }
    }
  }

  lemma RemoveDiskSlots(s: State, id: string, dk: string, pk: string, path: string)
    requires dk != id
    ensures Slot(s.(index := s.index - {id}), dk, pk, path) == Slot(s, dk, pk, path)
  {}

  lemma PartitionAddedSlots(s: State, a: string, p: Partition, dk: string, pk: string, path: string)
    requires Inv(s) && a in s.index && p.id.Some? && (dk, Some(pk)) != (a, p.id)
    ensures Slot(PartitionAdded(s, a, p), dk, pk, path) == Slot(s, dk, pk, path)
  {
    PartitionAddedExactly(s, a, p);
    SlotsFollowPartitions(s);
    SlotsFollowPartitions(PartitionAdded(s, a, p));
    hide PartitionAdded, Slot, MountsRef, PartitionAt;
  }

  lemma CutPartitionSlots(s: State, a: string, q: string, dk: string, pk: string, path: string)
    requires Inv(s) && TableRef(s, a).Some? && (dk, pk) != (a, q)
    ensures Slot(CutPartition(s, a, q), dk, pk, path) == Slot(s, dk, pk, path)
  {
    CutPartitionExactly(s, a, q);
    SlotsFollowPartitions(s);
    SlotsFollowPartitions(CutPartition(s, a, q));
    hide CutPartition, Slot, MountsRef, PartitionAt;
  }

  /** The partition records an operation may change. */
  ghost predicate AddressedPartition(s: State, op: Op, dk: string, pk: string) {
    match op
    case AddDisk(d) => d in s.heap.disks && s.heap.disks[d].id == Some(dk)
    case RemoveDisk(id) => id == dk
    case PutMountPoint(a, q, _) => a == dk && q == pk && MountsRef(s, dk, pk).None?
    case AddPartition(a, p) => a == dk && p.id == Some(pk)
    case RemovePartition(a, q) => a == dk && q == pk
    case _ => false
  }

  lemma StepKeepsOtherPartitions(s: State, op: Op, s2: State, dk: string, pk: string)
    requires Inv(s) && Step(s, op, s2) && !AddressedPartition(s, op, dk, pk)
    ensures PartitionAt(s2, dk, pk) == PartitionAt(s, dk, pk)
  {
    hide PutSlot, CutSlot, CutPartition, PartitionAdded, MountPointPut, Slot, Keyed, PartitionAt;
    if Effective(s, op) {
      match op {
        case AddDisk(d) => DiskAddedExactly(s, s.heap.disks[d].id.value, d);
        case RemoveDisk(id) => RemoveDiskPartitions(s, id, dk, pk);
        case PutMountPoint(a, q, mp) =>
          var s1, s3 := MountPointPutIsPutSlot(s, a, q, mp);
          PutSlotExactly(s3, a, q, mp.path, Completed(s1, WithMountMap(s, a, q), mp));
          WithMountsExactly(s, a, q);
          CopyExactly(s1, WithMountMap(s, a, q));
          SlotsFollowPartitions(s);
        case RemoveMountPoint(a, q, p) => CutSlotExactly(s, a, q, p);
        case AddPartition(a, p) =>
          OwnRecord(s, a);
          PartitionAddedExactly(s, a, p);
        case RemovePartition(a, q) => CutPartitionExactly(s, a, q);
        case AddShare(share) =>
          var a, q, p :| ShareAdded(s, share.value, a, q, p, s2);
          PutSlotExactly(s, a, q, p, Slot(s, a, q, p).value.(share := share));
        case RemoveShare(name) =>
          var a, q, p :| ShareRemoved(s, name, a, q, p, s2);
          PutSlotExactly(s, a, q, p, Slot(s, a, q, p).value.(share := None));
        case SetHDIdle(a, x) => PutDiskExactly(s, a, s.heap.disks[s.index[a]].(hdIdle := Some(x)));
        case SetSmart(a, x) => PutDiskExactly(s, a, s.heap.disks[s.index[a]].(smart := Some(x)));
      }
    }
  }

  lemma OwnRecord(s: State, a: string)
    requires Inv(s) && a in s.index
    ensures forall k :: k in s.index && s.index[k] == s.index[a] ==> k == a
  {}

  lemma RemoveDiskPartitions(s: State, id: string, dk: string, pk: string)
    requires dk != id
    ensures PartitionAt(s.(index := s.index - {id}), dk, pk) == PartitionAt(s, dk, pk)
  {}

  function DiskAt(s: State, dk: string): Option<Disk> {
    if dk in s.index && s.index[dk] in s.heap.disks then Some(s.heap.disks[s.index[dk]]) else None
  }

  /** The disk records an operation may change. */
  ghost predicate AddressedDisk(s: State, op: Op, dk: string) {
    match op
    case AddDisk(d) => d in s.heap.disks && s.heap.disks[d].id == Some(dk)
    case RemoveDisk(id) => id == dk
    case AddPartition(a, _) => a == dk && TableRef(s, dk).None?
    case SetHDIdle(a, _) => a == dk
    case SetSmart(a, _) => a == dk
    case _ => false
  }

  lemma StepKeepsOtherDisks(s: State, op: Op, s2: State, dk: string)
    requires Inv(s) && Step(s, op, s2) && !AddressedDisk(s, op, dk)
    ensures DiskAt(s2, dk) == DiskAt(s, dk)
  {
    hide Slot, Inv, Mounts, Table, PutSlot, CutSlot, CutPartition, MountPointPut, PartitionAdded, PutDisk, PartitionAt;
    if Effective(s, op) {
      match op {
        case PutMountPoint(a, q, mp) => MountPointKeepsDisks(s, a, q, mp);
        case RemoveMountPoint(a, q, p) => CutSlotKeepsDisks(s, a, q, p);
        case AddPartition(a, p) => PartitionKeepsDisks(s, a, p, dk);
        case RemovePartition(a, q) => CutPartitionKeepsDisks(s, a, q);
        case AddShare(share) =>
          var a, q, p :| ShareAdded(s, share.value, a, q, p, s2);
          PutSlotKeepsDisks(s, a, q, p, Slot(s, a, q, p).value.(share := share));
        case RemoveShare(name) =>
          var a, q, p :| ShareRemoved(s, name, a, q, p, s2);
          PutSlotKeepsDisks(s, a, q, p, Slot(s, a, q, p).value.(share := None));
        case SetHDIdle(a, x) => PutDiskKeepsDisks(s, a, s.heap.disks[s.index[a]].(hdIdle := Some(x)), dk);
        case SetSmart(a, x) => PutDiskKeepsDisks(s, a, s.heap.disks[s.index[a]].(smart := Some(x)), dk);
        case _ =>
      }
    }
  }

  lemma MountPointKeepsDisks(s: State, dk: string, pk: string, mp: MountPoint)
    requires Inv(s) && PartitionAt(s, dk, pk).Some?
    ensures MountPointPut(s, dk, pk, mp).heap.disks == s.heap.disks && MountPointPut(s, dk, pk, mp).index == s.index
  {
    hide MountPointPut, WithMounts, PutSlot, Slot, Unaliased, Keyed;
    var s1, s2 := MountPointPutIsPutSlot(s, dk, pk, mp);
    WithMountsExactly(s, dk, pk);
    PutSlotKeepsDisks(s2, dk, pk, mp.path, Completed(s1, WithMountMap(s, dk, pk), mp));
  }

  lemma PutSlotKeepsDisks(s: State, dk: string, pk: string, path: string, mp: MountPoint)
    requires MountsRef(s, dk, pk).Some?
    ensures PutSlot(s, dk, pk, path, mp).heap.disks == s.heap.disks && PutSlot(s, dk, pk, path, mp).index == s.index
  {}

  lemma CutSlotKeepsDisks(s: State, dk: string, pk: string, path: string)
    requires MountsRef(s, dk, pk).Some?
    ensures CutSlot(s, dk, pk, path).heap.disks == s.heap.disks && CutSlot(s, dk, pk, path).index == s.index
  {}

  lemma CutPartitionKeepsDisks(s: State, dk: string, pk: string)
    requires TableRef(s, dk).Some?
    ensures CutPartition(s, dk, pk).heap.disks == s.heap.disks && CutPartition(s, dk, pk).index == s.index
  {}

  lemma PartitionKeepsDisks(s: State, a: string, p: Partition, dk: string)
    requires Inv(s) && a in s.index && s.index[a] in s.heap.disks && p.id.Some? && (a == dk ==> TableRef(s, a).Some?)
    ensures DiskAt(PartitionAdded(s, a, p), dk) == DiskAt(s, dk)
  {
    OwnRecord(s, a);
  }

  lemma PutDiskKeepsDisks(s: State, a: string, d: Disk, dk: string)
    requires Inv(s) && a in s.index && a != dk
    ensures DiskAt(PutDisk(s, s.index[a], d), dk) == DiskAt(s, dk)
  {
    OwnRecord(s, a);
  }

  /** A disk whose partition map is keyed by another name than the partition's own is stored all
      the same, and the index is well formed no more. */
  lemma MiskeyedDiskBreaksInv() returns (s: State, d: Ref)
    ensures Inv(s) && d in s.heap.disks && Effective(s, AddDisk(d))
    ensures !DiskFits(s, s.heap.disks[d].id.value, s.heap.disks[d])
    ensures forall s2 :: Step(s, AddDisk(d), s2) ==> !Inv(s2)
  {
    var p := Partition(Some("y"), Some("a"), None, None, "");
    d := 0;
    var disks := map[0 := Disk(Some("a"), Some(1), None, None, "")];
    s := State(Heap(disks, map[1 := map["x" := p]], map[], map[], map[], map[], 2), map[]);
    assert TableOf(s.heap, s.heap.disks[0])["x"] == p;
    assert !DiskPartitionFits(s, "a", TableOf(s.heap, s.heap.disks[0]), "x");
    AddDiskExactly(s, d);
  }

  // ---------- what the addressed entry becomes ----------

  /** What an operation that takes effect shows afterwards, read through the index. */
  ghost predicate Shown(s: State, op: Op, s2: State) {
    match op
    case AddDisk(d) =>
      && d in s.heap.disks && s.heap.disks[d].id.Some?
      && s.heap.disks[d].id.value in s2.index && s2.index[s.heap.disks[d].id.value] == d
      && DiskAt(s2, s.heap.disks[d].id.value) == Some(s.heap.disks[d])
      && (forall k :: k in s.index ==> k in s2.index)
    case RemoveDisk(id) =>
      && id in s.index && id !in s2.index && DiskAt(s2, id).None?
      && (forall k :: k in s2.index <==> k in s.index && k != id)
    case PutMountPoint(dk, pk, mp) =>
      && Slot(s2, dk, pk, mp.path).Some?
      && var stored := Slot(s2, dk, pk, mp.path).value;
      && stored.path == mp.path && stored.share == mp.share && stored.info == mp.info && stored.partition.Some?
      && (mp.deviceId != "" ==> stored.deviceId == mp.deviceId)
      && (mp.partition.Some? ==> stored.partition == mp.partition)
    case RemoveMountPoint(dk, pk, path) => Slot(s, dk, pk, path).Some? && Slot(s2, dk, pk, path).None?
    case AddPartition(dk, p) => p.id.Some? && PartitionAt(s2, dk, p.id.value) == Some(p.(diskId := Some(dk)))
    case RemovePartition(dk, pk) => PartitionAt(s, dk, pk).Some? && PartitionAt(s2, dk, pk).None?
    case AddShare(share) => share.Some? && ShareShown(s, share.value, s2)
    case RemoveShare(name) =>
      exists dk, pk, path :: Slot(s, dk, pk, path).Some? &&
          ShareGone(s, name, s2, Slot(s, dk, pk, path).value, Slot(s2, dk, pk, path))
    case SetHDIdle(dk, x) =>
      DiskAt(s, dk).Some? && DiskAt(s2, dk) == Some(DiskAt(s, dk).value.(hdIdle := Some(x)))
    case SetSmart(dk, x) =>
      DiskAt(s, dk).Some? && DiskAt(s2, dk) == Some(DiskAt(s, dk).value.(smart := Some(x)))
  }

  /** The share stands in a slot with the path of its mount point, and if the mount point names a
      partition, in the slot of that partition. */
  ghost predicate ShareShown(s: State, share: Ref, s2: State) {
    && share in s.heap.shares && s.heap.shares[share].mount.Some? && s.heap.shares[share].mount.value in s.heap.points
    && var mp := s.heap.points[s.heap.shares[share].mount.value];
    && (exists dk, pk ::
          Slot(s, dk, pk, mp.path).Some? &&
              Slot(s2, dk, pk, mp.path) == Some(Slot(s, dk, pk, mp.path).value.(share := Some(share))))
    && (mp.partition.Some? ==>
          && mp.partition.value in s.heap.parts
          && var part := s.heap.parts[mp.partition.value];
          && part.diskId.Some? && part.id.Some?
          && Slot(s2, part.diskId.value, part.id.value, mp.path).Some?
          && Slot(s2, part.diskId.value, part.id.value, mp.path).value.share == Some(share))
  }

  /** A mount point that carried a share of that name, and is now as it was but without it. */
  ghost predicate ShareGone(s: State, name: string, s2: State, was: MountPoint, now: Option<MountPoint>) {
    && was.share.Some? && was.share.value in s.heap.shares && s.heap.shares[was.share.value].name == name
    && now == Some(was.(share := None))
  }

  lemma StepShows(s: State, op: Op, s2: State)
    requires Inv(s) && Step(s, op, s2) && Effective(s, op)
    ensures Shown(s, op, s2)
  {
    hide PutSlot, CutSlot, CutPartition, PartitionAdded, MountPointPut, Slot, Keyed, PartitionAt, Unaliased, TableRef,
        MountsRef;
    match op {
      case AddDisk(d) =>
      case RemoveDisk(id) =>
      case PutMountPoint(dk, pk, mp) =>
        MountPointPutBuildsCycle(s, dk, pk, mp, s2);
      case RemoveMountPoint(dk, pk, path) => CutSlotExactly(s, dk, pk, path);
      case AddPartition(dk, p) =>
        OwnRecord(s, dk);
        PartitionAddedExactly(s, dk, p);
      case RemovePartition(dk, pk) => CutPartitionExactly(s, dk, pk);
      case AddShare(share) =>
        var dk, pk, path :| ShareAdded(s, share.value, dk, pk, path, s2);
        PutSlotExactly(s, dk, pk, path, Slot(s, dk, pk, path).value.(share := share));
      case RemoveShare(name) =>
        var dk, pk, path :| ShareRemoved(s, name, dk, pk, path, s2);
        PutSlotExactly(s, dk, pk, path, Slot(s, dk, pk, path).value.(share := None));
        assert ShareGone(s, name, s2, Slot(s, dk, pk, path).value, Slot(s2, dk, pk, path));
      case SetHDIdle(dk, x) =>
      case SetSmart(dk, x) =>
    }
  }

  /** AddOrUpdateMountPoint really builds a cycle: the stored mount point refers to a copy of
      its partition, and the copy refers to the mount map the mount point is stored in. */
  lemma MountPointPutBuildsCycle(s: State, dk: string, pk: string, mp: MountPoint, s2: State)
    requires Inv(s) && Step(s, PutMountPoint(dk, pk, mp), s2) && Effective(s, PutMountPoint(dk, pk, mp))
    ensures Slot(s2, dk, pk, mp.path).Some?
    ensures var stored := Slot(s2, dk, pk, mp.path).value; var part := PartitionAt(s, dk, pk).value;
      && stored.(deviceId := mp.deviceId, partition := mp.partition) == mp
      && stored.deviceId == (if mp.deviceId == "" && part.id.Some? then part.id.value else mp.deviceId)
      && (mp.partition.Some? ==> stored.partition == mp.partition)
      && (mp.partition.None? ==>
            && stored.partition.Some? && stored.partition.value !in s.heap.parts &&
                stored.partition.value in s2.heap.parts
            && s2.heap.parts[stored.partition.value] == PartitionAt(s2, dk, pk).value
            && s2.heap.parts[stored.partition.value].mounts == MountsRef(s2, dk, pk)
            && MountsRef(s2, dk, pk).Some?)
  {
    hide PutSlot, MountPointPut, Slot, Keyed;
    var s1, s3 := MountPointPutIsPutSlot(s, dk, pk, mp);
    WithMountsExactly(s, dk, pk);
    CopyExactly(s1, WithMountMap(s, dk, pk));
    PutSlotExactly(s3, dk, pk, mp.path, Completed(s1, WithMountMap(s, dk, pk), mp));
    PutSlotParts(s3, dk, pk, mp.path, Completed(s1, WithMountMap(s, dk, pk), mp));
  }

  lemma PutSlotParts(s: State, dk: string, pk: string, path: string, mp: MountPoint)
    requires MountsRef(s, dk, pk).Some?
    ensures PutSlot(s, dk, pk, path, mp).heap.parts == s.heap.parts
    ensures PutSlot(s, dk, pk, path, mp).heap.shares == s.heap.shares
  {}

  // ---------- shares ----------

  ghost predicate OnePartitionPerPath(s: State, path: string) {
    forall a, p, b, q :: Slot(s, a, p, path).Some? && Slot(s, b, q, path).Some? ==> a == b && p == q
  }

  ghost predicate SharePath(s: State, share: Ref, path: string) {
    && share in s.heap.shares && s.heap.shares[share].mount.Some? && s.heap.shares[share].mount.value in s.heap.points
    && s.heap.points[s.heap.shares[share].mount.value].path == path
  }

  /** Searching by path finds the slot that the right partition information names. */
  lemma AddShareFindsTheSlot(s: State, plain: Ref, informed: Ref, path: string, s1: State, s2: State)
    requires OnePartitionPerPath(s, path) && SharePath(s, plain, path) && SharePath(s, informed, path)
    requires Step(s, AddShare(Some(plain)), s1) && Effective(s, AddShare(Some(plain)))
    requires Step(s, AddShare(Some(informed)), s2) && Effective(s, AddShare(Some(informed)))
    ensures exists dk, pk :: ShareAdded(s, plain, dk, pk, path, s1) && ShareAdded(s, informed, dk, pk, path, s2)
  {
    hide Slot, PutSlot;
    var a, p, x :| ShareAdded(s, plain, a, p, x, s1);
    var b, q, y :| ShareAdded(s, informed, b, q, y, s2);
    assert x == path && y == path;
    assert ShareAdded(s, plain, b, q, path, s1);
  }

  ghost predicate NoneCarries(s: State, name: string) {
    forall dk, pk, path :: !Carries(s, name, dk, pk, path)
  }

  lemma PutSlotBack(s: State, dk: string, pk: string, path: string, mp: MountPoint)
    requires Unaliased(s) && Slot(s, dk, pk, path).Some?
    ensures MountsRef(s, dk, pk).Some?
    ensures MountsRef(PutSlot(s, dk, pk, path, mp), dk, pk).Some?
    ensures PutSlot(PutSlot(s, dk, pk, path, mp), dk, pk, path, Slot(s, dk, pk, path).value) == s
  {
    var s1 := PutSlot(s, dk, pk, path, mp);
    assert MountsRef(s1, dk, pk) == MountsRef(s, dk, pk);
    assert Mounts(s1, dk, pk) == Mounts(s, dk, pk)[path := mp];
    var was := Slot(s, dk, pk, path).value;
    assert Mounts(s1, dk, pk)[path := was] == Mounts(s, dk, pk);
    var r := MountsRef(s, dk, pk).value;
    assert PutSlot(s1, dk, pk, path, was).heap.mounts == s.heap.mounts[r := s.heap.mounts[r]] == s.heap.mounts;
  }

  /** Removing a share right after attaching it restores the index, whichever mount point the
      search meets first, exactly when the slot was empty and nobody carried the name. (A share
      without a name is never removed.) */
  lemma RemoveUndoesAddExactly(s: State, r: Ref, dk: string, pk: string, path: string, s1: State)
    requires Inv(s) && r in s.heap.shares && ShareAdded(s, r, dk, pk, path, s1)
    ensures RemovalRestores(s, s1, s.heap.shares[r].name) <==>
            if s.heap.shares[r].name == "" then Slot(s, dk, pk, path).value.share == Some(r)
            else Slot(s, dk, pk, path).value.share.None? && NoneCarries(s, s.heap.shares[r].name)
  {
    hide Unaliased, Keyed, PutSlot, Slot, MountsRef, RemovalRestores, NoneCarries;
    if s.heap.shares[r].name == "" {
      NamelessStays(s, r, dk, pk, path, s1);
    } else {
      RemoveUndoesNamed(s, r, dk, pk, path, s1);
    }
  }

  /** Adding the share `r` to a slot, seen from the slot. */
  lemma AddedSlots(s: State, r: Ref, dk: string, pk: string, path: string, s1: State)
    requires Inv(s) && r in s.heap.shares && ShareAdded(s, r, dk, pk, path, s1)
    ensures Slot(s, dk, pk, path).Some? && s1.heap.shares == s.heap.shares && Unaliased(s1)
    ensures forall a, p :: MountsRef(s1, a, p) == MountsRef(s, a, p)
    ensures forall a, p, q :: (a, p, q) != (dk, pk, path) ==> Slot(s1, a, p, q) == Slot(s, a, p, q)
    ensures Slot(s1, dk, pk, path) == Some(Slot(s, dk, pk, path).value.(share := Some(r)))
  {
    hide Unaliased, Keyed, PutSlot, Slot, MountsRef;
    PutSlotExactly(s, dk, pk, path, Slot(s, dk, pk, path).value.(share := Some(r)));
    PutSlotParts(s, dk, pk, path, Slot(s, dk, pk, path).value.(share := Some(r)));
    PutSlotUnaliased(s, dk, pk, path, Slot(s, dk, pk, path).value.(share := Some(r)));
  }

  lemma NamelessStays(s: State, r: Ref, dk: string, pk: string, path: string, s1: State)
    requires Inv(s) && r in s.heap.shares && ShareAdded(s, r, dk, pk, path, s1) && s.heap.shares[r].name == ""
    ensures Slot(s, dk, pk, path).Some?
    ensures RemovalRestores(s, s1, "") <==> Slot(s, dk, pk, path).value.share == Some(r)
  {
    hide Unaliased, Keyed, PutSlot, Slot, MountsRef;
    var mp := Slot(s, dk, pk, path).value;
    AddedSlots(s, r, dk, pk, path, s1);
    assert Step(s1, RemoveShare(""), s1);
    if mp.share == Some(r) {
      assert mp.(share := Some(r)) == mp;
      NothingPut(s, dk, pk, path);
    }
  }

  lemma RemoveUndoesNamed(s: State, r: Ref, dk: string, pk: string, path: string, s1: State)
    requires Inv(s) && r in s.heap.shares && ShareAdded(s, r, dk, pk, path, s1) && s.heap.shares[r].name != ""
    ensures Slot(s, dk, pk, path).Some?
    ensures RemovalRestores(s, s1, s.heap.shares[r].name) <==>
            Slot(s, dk, pk, path).value.share.None? && NoneCarries(s, s.heap.shares[r].name)
  {
    hide Unaliased, Keyed, PutSlot, Slot, MountsRef;
    var name := s.heap.shares[r].name;
    var mp := Slot(s, dk, pk, path).value;
    var added := mp.(share := Some(r));
    AddedSlots(s, r, dk, pk, path, s1);
    assert Carries(s1, name, dk, pk, path);
    if mp.share.None? && NoneCarries(s, name) {
      assert added.(share := None) == mp;
      PutSlotBack(s, dk, pk, path, added);
      forall s2 | Step(s1, RemoveShare(name), s2)
        ensures s2 == s
      {
        var a, q, p :| ShareRemoved(s1, name, a, q, p, s2);
        assert !Carries(s, name, a, q, p);
      }
    } else if mp.share.None? {
      var a, q, p :| Carries(s, name, a, q, p);
      SlotKeyed(s, a, q, p);
      OtherRemoved(s, s1, name, dk, pk, path, a, q, p);
    } else {
      SameTaken(s, s1, name, dk, pk, path);
    }
  }

  /** Taking the share from the slot does not bring back the one that was there before. */
  lemma SameTaken(s: State, s1: State, name: string, dk: string, pk: string, path: string)
    requires Unaliased(s1) && name != "" && Carries(s1, name, dk, pk, path) && MountsRef(s1, dk, pk).Some?
    requires Slot(s, dk, pk, path).Some? && Slot(s, dk, pk, path).value.share.Some?
    ensures !RemovalRestores(s, s1, name)
  {
    hide Unaliased, PutSlot, Slot, MountsRef;
    var none := Slot(s1, dk, pk, path).value.(share := None);
    var s2 := PutSlot(s1, dk, pk, path, none);
    assert ShareRemoved(s1, name, dk, pk, path, s2);
    assert Step(s1, RemoveShare(name), s2);
    PutSlotExactly(s1, dk, pk, path, none);
  }

  ghost predicate RemovalRestores(s: State, s1: State, name: string) {
    forall s2 :: Step(s1, RemoveShare(name), s2) ==> s2 == s
  }

  lemma NothingPut(s: State, dk: string, pk: string, path: string)
    requires Slot(s, dk, pk, path).Some?
    ensures MountsRef(s, dk, pk).Some? && PutSlot(s, dk, pk, path, Slot(s, dk, pk, path).value) == s
  {
    var r := MountsRef(s, dk, pk).value;
    assert Mounts(s, dk, pk)[path := Slot(s, dk, pk, path).value] == Mounts(s, dk, pk);
    assert s.heap.mounts[r := s.heap.mounts[r]] == s.heap.mounts;
  }

  lemma PutSlotUnaliased(s: State, dk: string, pk: string, path: string, mp: MountPoint)
    requires Unaliased(s) && MountsRef(s, dk, pk).Some?
    ensures Unaliased(PutSlot(s, dk, pk, path, mp))
  {
    PutSlotExactly(s, dk, pk, path, mp);
    hide TableRef, MountsRef, PartitionAt, Slot, Mounts;
  }

  lemma OtherRemoved(s: State, s1: State, name: string, dk: string, pk: string, path: string, a: string, q: string,
      p: string)
    requires Unaliased(s) && name != "" && Carries(s, name, a, q, p) && Slot(s, dk, pk, path).Some?
    requires Slot(s, dk, pk, path).value.share.None? && s1.heap.shares == s.heap.shares
    requires Unaliased(s1) && MountsRef(s1, a, q).Some?
    requires forall x, y, z :: (x, y, z) != (dk, pk, path) ==> Slot(s1, x, y, z) == Slot(s, x, y, z)
    requires Slot(s1, dk, pk, path).Some? && Slot(s1, dk, pk, path).value.share.Some?
    ensures !RemovalRestores(s, s1, name)
  {
    assert Slot(s1, a, q, p) == Slot(s, a, q, p);
    var s2 := PutSlot(s1, a, q, p, Slot(s1, a, q, p).value.(share := None));
    assert Carries(s1, name, a, q, p);
    assert ShareRemoved(s1, name, a, q, p, s2);
    assert Step(s1, RemoveShare(name), s2);
    PutSlotExactly(s1, a, q, p, Slot(s1, a, q, p).value.(share := None));
    assert Slot(s2, dk, pk, path) == Slot(s1, dk, pk, path);
  }

  ghost function Carriers(s: State, name: string): set<(string, string, string)> {
    set dk, pk, path | dk in s.index && pk in Table(s, dk) && path in Mounts(s, dk, pk) &&
        Carries(s, name, dk, pk, path) :: (dk, pk, path)
  }

  /** A removal that reports success takes the name from exactly one mount point. */
  lemma RemoveShareTakesOne(s: State, name: string, s2: State)
    requires Inv(s) && Step(s, RemoveShare(name), s2) && Effective(s, RemoveShare(name))
    ensures |Carriers(s2, name)| == |Carriers(s, name)| - 1
    ensures Carriers(s2, name) < Carriers(s, name)
  {
    var dk, pk, path :| ShareRemoved(s, name, dk, pk, path, s2);
    PutSlotExactly(s, dk, pk, path, Slot(s, dk, pk, path).value.(share := None));
    PutSlotParts(s, dk, pk, path, Slot(s, dk, pk, path).value.(share := None));
    CarriersAre(s, name);
    CarriersAre(s2, name);
    hide Slot, PutSlot, Keyed, MountsRef, Carriers;
    assert Carriers(s2, name) == Carriers(s, name) - {(dk, pk, path)};
  }

  lemma CarriersAre(s: State, name: string)
    ensures forall dk, pk, path :: (dk, pk, path) in Carriers(s, name) <==> Carries(s, name, dk, pk, path)
  {}
}
