/**
 What a snapshot repeats of its source, record by record and field by field.
 */
module SnapshotReference {
  import opened Wrappers
  import opened Disks
  import opened Snapshot
  import opened SnapshotLaws

  /** All of a share but its mount point. */
  ghost predicate ShareKept(s: Share, s2: Share) {
    s2.(mount := s.mount) == s
  }

  /** All of a mount point but its partition, and its share without the way back. */
  ghost predicate MountKept(h: Heap, m: MountPoint, h2: Heap, m2: MountPoint) {
    && m2.(partition := m.partition, share := m.share) == m && m2.partition.None?
    && (m.share.Some? <==> m2.share.Some?)
    && (m.share.Some? ==>
          && m.share.value in h.shares && m2.share.value in h2.shares
          && ShareKept(h.shares[m.share.value], h2.shares[m2.share.value])
          && h2.shares[m2.share.value].mount.None?)
  }

  ghost predicate MountsKept(h: Heap, r: Option<Ref>, h2: Heap, r2: Option<Ref>) {
    && (r.Some? <==> r2.Some?)
    && (r.Some? ==>
          && r.value in h.mounts && r2.value in h2.mounts && h2.mounts[r2.value].Keys == h.mounts[r.value].Keys
          && forall path :: path in h.mounts[r.value] ==>
            MountKept(h, h.mounts[r.value][path], h2, h2.mounts[r2.value][path]))
  }

  ghost predicate PartitionKept(h: Heap, p: Partition, h2: Heap, p2: Partition) {
    && p2.(mounts := p.mounts, hostMounts := p.hostMounts) == p
    && MountsKept(h, p.mounts, h2, p2.mounts) && MountsKept(h, p.hostMounts, h2, p2.hostMounts)
  }

  ghost predicate DiskKept(h: Heap, d: Disk, h2: Heap, d2: Disk) {
    && d2.(partitions := d.partitions) == d
    && (d.partitions.Some? <==> d2.partitions.Some?)
    && (d.partitions.Some? ==>
          && d.partitions.value in h.tables && d2.partitions.value in h2.tables
          && h2.tables[d2.partitions.value].Keys == h.tables[d.partitions.value].Keys
          && forall k :: k in h.tables[d.partitions.value] ==>
            PartitionKept(h, h.tables[d.partitions.value][k], h2, h2.tables[d2.partitions.value][k]))
  }

  /** A share of its own right: with its mount point, but without that one's partition and share. */
  ghost predicate ShareAndMountKept(h: Heap, s: Share, h2: Heap, s2: Share) {
    && ShareKept(s, s2)
    && (s.mount.Some? <==> s2.mount.Some?)
    && (s.mount.Some? ==>
          && s.mount.value in h.points && s2.mount.value in h2.points
          && var m, m2 := h.points[s.mount.value], h2.points[s2.mount.value];
          m2 == m.(partition := None, share := None))
  }

  lemma MountTells(h: Heap, m: MountPoint, h2: Heap, m2: MountPoint, lo: Ref)
    requires MountSound(h, m) && MountCopy(h2, m2, lo) && TreeOfMount(h2, m2, true) == TreeOfMount(h, m, true)
    ensures MountKept(h, m, h2, m2)
  {}

  lemma MountsTell(h: Heap, r: Option<Ref>, h2: Heap, r2: Option<Ref>, lo: Ref)
    requires MountsSound(h, r) && MountsCopy(h2, r2, lo) && TreesOfMounts(h2, r2) == TreesOfMounts(h, r)
    ensures MountsKept(h, r, h2, r2)
  {
    hide TreeOfMount, MountSound, MountCopy, MountKept;
    if r.Some? {
      var t, t2 := TreesOfMounts(h, r).value, TreesOfMounts(h2, r2).value;
      assert t.Keys == h.mounts[r.value].Keys && t2.Keys == h2.mounts[r2.value].Keys;
      forall path | path in h.mounts[r.value]
        ensures MountKept(h, h.mounts[r.value][path], h2, h2.mounts[r2.value][path])
      {
        assert t[path] == t2[path];
        MountTells(h, h.mounts[r.value][path], h2, h2.mounts[r2.value][path], lo);
      }
    }
  }

  lemma PartitionTells(h: Heap, p: Partition, h2: Heap, p2: Partition, lo: Ref)
    requires PartitionSound(h, p) && PartitionCopy(h2, p2, lo) && TreeOfPartition(h2, p2) == TreeOfPartition(h, p)
    ensures PartitionKept(h, p, h2, p2)
  {
    hide MountsSound, MountsCopy, TreesOfMounts, MountsKept;
    MountsTell(h, p.mounts, h2, p2.mounts, lo);
    MountsTell(h, p.hostMounts, h2, p2.hostMounts, lo);
  }

  lemma DiskTells(h: Heap, d: Disk, h2: Heap, d2: Disk, lo: Ref)
    requires DiskSound(h, d) && DiskCopy(h2, d2, lo) && TreeOfDisk(h2, d2) == TreeOfDisk(h, d)
    ensures DiskKept(h, d, h2, d2)
  {
    hide PartitionSound, PartitionCopy, TreeOfPartition, PartitionKept;
    if d.partitions.Some? {
      var t, t2 := TreeOfDisk(h, d).partitions.value, TreeOfDisk(h2, d2).partitions.value;
      assert t.Keys == h.tables[d.partitions.value].Keys && t2.Keys == h2.tables[d2.partitions.value].Keys;
      forall k | k in h.tables[d.partitions.value]
        ensures PartitionKept(h, h.tables[d.partitions.value][k], h2, h2.tables[d2.partitions.value][k])
      {
        assert t[k] == t2[k];
        PartitionTells(h, h.tables[d.partitions.value][k], h2, h2.tables[d2.partitions.value][k], lo);
      }
    }
  }

  lemma ShareTells(h: Heap, s: Share, h2: Heap, s2: Share, lo: Ref)
    requires ShareSound(h, s) && ShareCopy(h2, s2, lo) && TreeOfShare(h2, s2) == TreeOfShare(h, s)
    ensures ShareAndMountKept(h, s, h2, s2)
  {}

  ghost predicate DiskPointerKept(h: Heap, a: Option<Ref>, h2: Heap, b: Option<Ref>) {
    && (a.Some? <==> b.Some?)
    && (a.Some? ==> a.value in h.disks && b.value in h2.disks && DiskKept(h, h.disks[a.value], h2, h2.disks[b.value]))
  }

  /** A payload is sanitized to one of its own kind that repeats all its records. */
  ghost predicate Reproduced(h: Heap, p: Payload, h2: Heap, q: Payload) {
    match p
    case DiskSlice(a) => q.DiskSlice? && (a.Some? <==> q.disks.Some?) &&
      (a.Some? ==>
        && |q.disks.value| == |a.value|
        && forall i :: 0 <= i < |a.value| ==> DiskPointerKept(h, a.value[i], h2, q.disks.value[i]))
    case ShareSlice(a) => q.ShareSlice? && (a.Some? <==> q.shares.Some?) &&
      (a.Some? ==>
        && |q.shares.value| == |a.value|
        && forall i :: 0 <= i < |a.value| ==> ShareAndMountKept(h, a.value[i], h2, q.shares.value[i]))
    case ShareValue(a) => q.ShareValue? && ShareAndMountKept(h, a, h2, q.share)
    case SharePointer(a) => q.SharePointer? && (a.Some? <==> q.shareRef.Some?) &&
      (a.Some? ==>
        && a.value in h.shares && q.shareRef.value in h2.shares
        && ShareAndMountKept(h, h.shares[a.value], h2, h2.shares[q.shareRef.value]))
    case MountValue(a) => q.MountValue? && MountKept(h, a, h2, q.mount)
    case MountPointer(a) => q.MountPointer? && (a.Some? <==> q.mountRef.Some?) &&
      (a.Some? ==>
        && a.value in h.points && q.mountRef.value in h2.points
        && MountKept(h, h.points[a.value], h2, h2.points[q.mountRef.value]))
    case Other(_) => q == p
  }

  lemma SnapshotReproduces(h: Heap, p: Payload, h2: Heap, q: Payload)
    requires Sound(h, p) && SnapshotOf(h, p, h2, q)
    ensures Reproduced(h, p, h2, q)
  {
    hide TreeOfDisk, TreeOfShare, TreeOfMount, DiskCopy, ShareCopy, MountCopy, EndsWithin, DiskSound, MountSound,
        ShareSound;
    hide DiskKept, MountKept, ShareAndMountKept, DiskUnshared, DiskRefs;
    match (p, q) {
      case (DiskSlice(a), DiskSlice(b)) =>
        if a.Some? {
          forall i | 0 <= i < |a.value|
            ensures DiskPointerKept(h, a.value[i], h2, b.value[i])
          {
            assert DiskCopied(h, a.value[i], h2, b.value[i]) && DiskPointerSound(h, a.value[i]);
            if a.value[i].Some? { DiskTells(h, h.disks[a.value[i].value], h2, h2.disks[b.value[i].value], h.next); }
          }
        }
      case (ShareSlice(a), ShareSlice(b)) =>
        if a.Some? {
          forall i | 0 <= i < |a.value|
            ensures ShareAndMountKept(h, a.value[i], h2, b.value[i])
          {
            assert ShareCopied(h, a.value[i], h2, b.value[i]) && ShareAllSound(h, a.value[i]);
            ShareTells(h, a.value[i], h2, b.value[i], h.next);
          }
        }
      case (ShareValue(a), ShareValue(b)) => ShareTells(h, a, h2, b, h.next);
      case (SharePointer(a), SharePointer(b)) =>
        if a.Some? { ShareTells(h, h.shares[a.value], h2, h2.shares[b.value], h.next); }
      case (MountValue(a), MountValue(b)) => MountTells(h, a, h2, b, h.next);
      case (MountPointer(a), MountPointer(b)) =>
        if a.Some? { MountTells(h, h.points[a.value], h2, h2.points[b.value], h.next); }
      case _ =>
    }
  }
}
